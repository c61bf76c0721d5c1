/** The cooperative executor with its timer, keyboard and sleeping tasks (src/task), as a machine
    whose atomic steps may be separated by interrupts whenever interrupts are enabled.  An
    AtomicWaker is a cell that holds at most one task to wake; an ArrayQueue is a bounded sequence. */
module Tasks {
  import opened Collections

  type TaskId = nat
  type SleepId = nat
  type Scancode = x: nat | x < 256

  const QUEUE_CAPACITY: nat := 100
  const TIMER_FREQUENCY: nat := 250

  /** timer_loop, print_keypresses, or any future that only ever awaits sleep_for. */
  datatype Kind = TimerLoop | KeyPrinter | Sleeping

  /** `started`: the stream of a timer or keyboard task exists.  `awaits`: the sleep a task waits for. */
  datatype Task = Task(kind: Kind, started: bool, awaits: Option<SleepId>)

  /** An entry of the timer tasks manager. */
  datatype Sleeper = Sleeper(ticks: nat, waker: Option<TaskId>)

  /** Where the processor is. */
  datatype Pc =
    | LoopHead                                                       // run: look at STOP
    | PopReady                                                       // run_ready_tasks: next ready task
    | Poll(id: TaskId)                                               // waker cache, then into the future
    | TimerFirst(id: TaskId) | TimerRegister(id: TaskId) | TimerSecond(id: TaskId) | TimerTake(id: TaskId)
    | Decrement(id: TaskId, rest: seq<SleepId>)                      // decrement_all: entries still to visit
    | WakeSleeper(id: TaskId, sleep: SleepId, rest: seq<SleepId>)    // decrement_all: an entry reached zero
    | KeyFirst(id: TaskId) | KeyRegister(id: TaskId) | KeySecond(id: TaskId) | KeyTake(id: TaskId)
    | KeyProcess(id: TaskId)                                         // a scancode was obtained
    | Body(id: TaskId)                                               // between two awaits
    | SleepCheck(id: TaskId) | SleepRegister(id: TaskId)             // Sleep::poll
    | Finish(id: TaskId)                                             // Poll::Ready
    | Idle                                                           // sleep_if_idle: about to `cli`
    | IdleCheck                                                      // interrupts off
    | Halted                                                         // `sti; hlt` executed
    | Stopped | Panicked

  /** What is remembered about a sleep for the statements below; the code has no such record. */
  datatype SleepRecord = SleepRecord(period: nat, consumedBefore: nat, raisedBefore: nat, fired: nat)

  datatype History = History(
    raised: nat,               // timer interrupts since the flag exists
    consumed: nat,             // times the flag was found set and cleared
    accepted: seq<Scancode>,   // scancodes put into the queue
    taken: seq<Scancode>,      // scancodes handed to the key printer
    sleeps: map<SleepId, SleepRecord>)

  /** TIMER_FLAG with WAKER of timer.rs, and whose stream initialised the flag. */
  datatype TimerCells = TimerCells(flag: Option<bool>, task: Option<TaskId>, waker: Option<TaskId>)

  /** SCANCODE_QUEUE with WAKER of keyboard.rs, and whose stream initialised the queue. */
  datatype KeyCells = KeyCells(queue: Option<seq<Scancode>>, task: Option<TaskId>, waker: Option<TaskId>)

  /** TIMER_TASKS_MANAGER and the counter of Sleep::new. */
  datatype Manager = Manager(sleepers: map<SleepId, Sleeper>, nextId: SleepId)

  datatype State = State(
    pc: Pc, interrupts: bool, stop: bool,
    tasks: map<TaskId, Task>, ready: seq<TaskId>, wakerCache: set<TaskId>,
    timer: TimerCells, keys: KeyCells, manager: Manager,
    hist: History)

  /** What a step may depend on besides the state. */
  datatype Choice = Plain | Complete | SleepFor(ms: nat) | SetStop

  datatype Action = Step(choice: Choice) | TimerInterrupt | KeyboardInterrupt(code: Scancode)

  // ---- Wakers and interrupts ---------------------------------------------------------------------

  /** TaskWaker::wake_task; a full queue is a panic. */
  function PushReady(s: State, id: TaskId): State {
    if |s.ready| < QUEUE_CAPACITY then s.(ready := s.ready + [id]) else s.(pc := Panicked)
  }

  function Resume(s: State): State {
    if s.pc.Halted? then s.(pc := LoopHead) else s
  }

  /** raise_timer. */
  function RaiseTimer(s: State): State {
    if s.timer.flag.None? then Resume(s)
    else
      var s1 := Resume(s).(timer := s.timer.(flag := Some(true), waker := None), hist := s.hist.(raised := s.hist.raised + 1));
      if s.timer.waker.Some? then PushReady(s1, s.timer.waker.value) else s1
  }

  /** add_scancode. */
  function AddScancode(s: State, code: Scancode): State {
    if s.keys.queue.None? || |s.keys.queue.value| >= QUEUE_CAPACITY then Resume(s)
    else
      var s1 := Resume(s).(keys := s.keys.(queue := Some(s.keys.queue.value + [code]), waker := None),
                           hist := s.hist.(accepted := s.hist.accepted + [code]));
      if s.keys.waker.Some? then PushReady(s1, s.keys.waker.value) else s1
  }

  // ---- Steps -------------------------------------------------------------------------------------

  function PopStep(s: State): State {
    if s.ready == [] then s.(pc := Idle)
    else s.(ready := s.ready[1..], pc := if s.ready[0] in s.tasks then Poll(s.ready[0]) else PopReady)
  }

  /** Into the future: the first poll of a stream task creates the stream, which may exist only once. */
  function PollStep(s: State, id: TaskId): State
    requires id in s.tasks
  {
    var t := s.tasks[id];
    var s1 := s.(wakerCache := s.wakerCache + {id});
    match t.kind
    case TimerLoop =>
      if t.started then s1.(pc := TimerFirst(id))
      else if s.timer.flag.Some? then s1.(pc := Panicked)
      else s1.(pc := TimerFirst(id), timer := s.timer.(flag := Some(false), task := Some(id)), tasks := s.tasks[id := t.(started := true)])
    case KeyPrinter =>
      if t.started then s1.(pc := KeyFirst(id))
      else if s.keys.queue.Some? then s1.(pc := Panicked)
      else s1.(pc := KeyFirst(id), keys := s.keys.(queue := Some([]), task := Some(id)), tasks := s.tasks[id := t.(started := true)])
    case Sleeping =>
      s1.(pc := if t.awaits.None? then Body(id) else SleepCheck(id))
  }

  /** TimerStream::poll_next and the loop around it; clearing the flag consumes a tick. */
  function ConsumeTick(s: State): State {
    s.(timer := s.timer.(flag := Some(false)), hist := s.hist.(consumed := s.hist.consumed + 1))
  }

  function TimerStep(s: State): State
    requires s.pc.TimerFirst? || s.pc.TimerRegister? || s.pc.TimerSecond? || s.pc.TimerTake?
  {
    match s.pc
    case TimerFirst(id) =>
      if s.timer.flag == Some(true) then ConsumeTick(s).(pc := Decrement(id, SortedKeysBelow(s.manager.sleepers, s.manager.nextId)))
      else s.(pc := TimerRegister(id))
    case TimerRegister(id) => s.(timer := s.timer.(waker := Some(id)), pc := TimerSecond(id))
    case TimerSecond(id) =>
      if s.timer.flag == Some(true) then ConsumeTick(s).(pc := TimerTake(id))
      else s.(pc := PopReady)
    case TimerTake(id) => s.(timer := s.timer.(waker := None), pc := Decrement(id, SortedKeysBelow(s.manager.sleepers, s.manager.nextId)))
  }

  /** The keys below `n` in ascending order, as the manager's map iterates; ids count up, so with
      the next id for `n` these are all keys. */
  function SortedKeysBelow(m: map<SleepId, Sleeper>, n: nat): (r: seq<SleepId>)
    ensures forall k :: k in r <==> k in m && k < n
    ensures forall i, j :: 0 <= i < j < |r| ==> r[i] < r[j]
  {
    if n == 0 then []
    else
      var r := SortedKeysBelow(m, n - 1);
      assert forall i :: 0 <= i < |r| ==> r[i] in r;
      r + (if n - 1 in m then [n - 1] else [])
  }

  function SetSleeper(s: State, i: SleepId, e: Sleeper): State {
    s.(manager := s.manager.(sleepers := s.manager.sleepers[i := e]))
  }

  /** decrement_all, one entry at a time. */
  function DecrementStep(s: State): State
    requires s.pc.Decrement? || s.pc.WakeSleeper?
  {
    match s.pc
    case Decrement(id, rest) =>
      if rest == [] then s.(pc := TimerFirst(id))
      else if rest[0] !in s.manager.sleepers then s.(pc := Panicked)
      else
        var e := s.manager.sleepers[rest[0]];
        var ticks := if e.ticks == 0 then 0 else e.ticks - 1;
        SetSleeper(s, rest[0], e.(ticks := ticks)).(
          pc := if ticks == 0 then WakeSleeper(id, rest[0], rest[1..]) else Decrement(id, rest[1..]))
    case WakeSleeper(id, sleep, rest) =>
      if sleep !in s.manager.sleepers then s.(pc := Panicked)
      else
        var e := s.manager.sleepers[sleep];
        var s1 := SetSleeper(s, sleep, e.(waker := None)).(pc := Decrement(id, rest));
        if e.waker.None? then s1 else PushReady(Fired(s1, sleep), e.waker.value)
  }

  function Fired(s: State, sleep: SleepId): State {
    if sleep in s.hist.sleeps
    then s.(hist := s.hist.(sleeps := s.hist.sleeps[sleep := s.hist.sleeps[sleep].(fired := s.hist.sleeps[sleep].fired + 1)]))
    else s
  }

  /** ScancodeStream::poll_next and the loop around it. */
  function TakeScancode(s: State): State
    requires s.keys.queue.Some? && s.keys.queue.value != []
  {
    s.(keys := s.keys.(queue := Some(s.keys.queue.value[1..])), hist := s.hist.(taken := s.hist.taken + [s.keys.queue.value[0]]))
  }

  function KeyStep(s: State, choice: Choice): State
    requires s.pc.KeyFirst? || s.pc.KeyRegister? || s.pc.KeySecond? || s.pc.KeyTake? || s.pc.KeyProcess?
  {
    match s.pc
    case KeyFirst(id) =>
      if s.keys.queue.Some? && s.keys.queue.value != [] then TakeScancode(s).(pc := KeyProcess(id)) else s.(pc := KeyRegister(id))
    case KeyRegister(id) => s.(keys := s.keys.(waker := Some(id)), pc := KeySecond(id))
    case KeySecond(id) =>
      if s.keys.queue.Some? && s.keys.queue.value != [] then TakeScancode(s).(pc := KeyTake(id)) else s.(pc := PopReady)
    case KeyTake(id) => s.(keys := s.keys.(waker := None), pc := KeyProcess(id))
    case KeyProcess(id) => s.(stop := s.stop || choice.SetStop?, pc := KeyFirst(id))
  }

  /** Ticks a sleep of `ms` milliseconds waits for (Sleep::new). */
  function TicksFor(ms: nat): nat {
    var perTick := 1000 / TIMER_FREQUENCY;
    if ms < perTick then 1 else ms / perTick
  }

  function SleepNew(s: State, id: TaskId, ms: nat): State
    requires id in s.tasks
  {
    var sid := s.manager.nextId;
    if sid in s.manager.sleepers then s.(pc := Panicked)
    else s.(manager := Manager(s.manager.sleepers[sid := Sleeper(TicksFor(ms), None)], sid + 1),
            tasks := s.tasks[id := s.tasks[id].(awaits := Some(sid))], pc := SleepCheck(id),
            hist := s.hist.(sleeps := s.hist.sleeps[sid := SleepRecord(TicksFor(ms), s.hist.consumed, s.hist.raised, 0)]))
  }

  /** Sleep::poll and the code of a task between awaits. */
  function TaskStep(s: State, choice: Choice): State
    requires (s.pc.Body? || s.pc.SleepCheck? || s.pc.SleepRegister? || s.pc.Finish?) && s.pc.id in s.tasks
  {
    var t := s.tasks[s.pc.id];
    match s.pc
    case Body(id) =>
      (match choice
       case SleepFor(ms) => SleepNew(s, id, ms)
       case Complete => s.(pc := Finish(id))
       case _ => s)
    case SleepCheck(id) =>
      if t.awaits.None? || t.awaits.value !in s.manager.sleepers then s.(pc := Panicked)
      else if s.manager.sleepers[t.awaits.value].ticks == 0
      then s.(manager := s.manager.(sleepers := s.manager.sleepers - {t.awaits.value}),
              tasks := s.tasks[id := t.(awaits := None)], pc := Body(id))
      else s.(pc := SleepRegister(id))
    case SleepRegister(id) =>
      if t.awaits.None? || t.awaits.value !in s.manager.sleepers then s.(pc := Panicked)
      else SetSleeper(s, t.awaits.value, s.manager.sleepers[t.awaits.value].(waker := Some(id))).(pc := PopReady)
    case Finish(id) => s.(tasks := s.tasks - {id}, wakerCache := s.wakerCache - {id}, pc := PopReady)
  }

  function Internal(s: State, choice: Choice): State {
    match s.pc
    case LoopHead => s.(pc := if s.stop then Stopped else PopReady)
    case PopReady => PopStep(s)
    case Poll(id) => if id in s.tasks then PollStep(s, id) else s.(pc := Panicked)
    case TimerFirst(_) => TimerStep(s)
    case TimerRegister(_) => TimerStep(s)
    case TimerSecond(_) => TimerStep(s)
    case TimerTake(_) => TimerStep(s)
    case Decrement(_, _) => DecrementStep(s)
    case WakeSleeper(_, _, _) => DecrementStep(s)
    case KeyFirst(_) => KeyStep(s, choice)
    case KeyRegister(_) => KeyStep(s, choice)
    case KeySecond(_) => KeyStep(s, choice)
    case KeyTake(_) => KeyStep(s, choice)
    case KeyProcess(_) => KeyStep(s, choice)
    case Body(id) => if id in s.tasks then TaskStep(s, choice) else s.(pc := Panicked)
    case SleepCheck(id) => if id in s.tasks then TaskStep(s, choice) else s.(pc := Panicked)
    case SleepRegister(id) => if id in s.tasks then TaskStep(s, choice) else s.(pc := Panicked)
    case Finish(id) => if id in s.tasks then TaskStep(s, choice) else s.(pc := Panicked)
    case Idle => s.(interrupts := false, pc := IdleCheck)
    case IdleCheck => s.(interrupts := true, pc := if s.ready == [] then Halted else LoopHead)
    case Halted => s
    case Stopped => s
    case Panicked => s
  }

  /** One atomic step, or an interrupt if interrupts are on. */
  function Next(s: State, a: Action): State {
    if s.pc.Panicked? || s.pc.Stopped? then s
    else match a
         case Step(choice) => Internal(s, choice)
         case TimerInterrupt => if s.interrupts then RaiseTimer(s) else s
         case KeyboardInterrupt(code) => if s.interrupts then AddScancode(s, code) else s
  }

  function Run(s: State, actions: seq<Action>): State
    decreases |actions|
  {
    if actions == [] then s else Run(Next(s, actions[0]), actions[1..])
  }

  /** Executor::spawn; a known id or a full queue is a panic. */
  function Spawn(s: State, id: TaskId, kind: Kind): State {
    if id in s.tasks then s.(pc := Panicked)
    else PushReady(s.(tasks := s.tasks[id := Task(kind, false, None)]), id)
  }

  /** The executor after spawning one task per kind; TaskId::new counts up from zero. */
  function Boot(kinds: seq<Kind>): State {
    if kinds == []
    then State(LoopHead, true, false, map[], [], {}, TimerCells(None, None, None), KeyCells(None, None, None),
               Manager(map[], 0), History(0, 0, [], [], map[]))
    else
      var s := Boot(kinds[..|kinds| - 1]);
      if s.pc.Panicked? then s else Spawn(s, |kinds| - 1, kinds[|kinds| - 1])
  }
}
