/** The timer tasks manager as the object it is, and a pass of its decrement_all against the atomic
    steps of the executor's machine. */
module TimerManager {
  import opened Collections
  import opened Tasks

  /** One entry after a tick: a counter that reaches zero gives its waker away. */
  function Ticked(e: Sleeper): Sleeper {
    if e.ticks <= 1 then Sleeper(0, None) else Sleeper(e.ticks - 1, e.waker)
  }

  /** Every entry ticked. */
  function AllTicked(m: map<SleepId, Sleeper>): map<SleepId, Sleeper> {
    map i | i in m :: Ticked(m[i])
  }

  /** The tasks woken by ticking the entries `keys`, in that order. */
  function Woken(m: map<SleepId, Sleeper>, keys: seq<SleepId>): seq<TaskId>
    requires forall i :: i in keys ==> i in m
    decreases |keys|
  {
    if keys == [] then []
    else
      var e := m[keys[0]];
      (if e.ticks <= 1 && e.waker.Some? then [e.waker.value] else []) + Woken(m, keys[1..])
  }

  lemma {:induction false} WokenFrame(m: map<SleepId, Sleeper>, m': map<SleepId, Sleeper>, keys: seq<SleepId>)
    requires forall i :: i in keys ==> i in m && i in m' && m'[i] == m[i]
    ensures Woken(m', keys) == Woken(m, keys)
    decreases |keys|
  {
    if keys != [] {
      WokenFrame(m, m', keys[1..]);
    }
  }

  lemma {:induction false} WokenOneMore(m: map<SleepId, Sleeper>, keys: seq<SleepId>, n: nat)
    requires n < |keys| && forall i :: i in keys ==> i in m
    ensures var e := m[keys[n]];
            Woken(m, keys[..n + 1]) == Woken(m, keys[..n]) + (if e.ticks <= 1 && e.waker.Some? then [e.waker.value] else [])
    decreases n
  {
    var a, b := keys[..n + 1], keys[..n];
    if n == 0 {
      assert a[1..] == [];
      assert Woken(m, []) == [];
    } else {
      assert a[1..] == keys[1..][..n] && b[1..] == keys[1..][..n - 1];
      WokenOneMore(m, keys[1..], n - 1);
    }
  }

  /** The first n of the entries `keys` have ticked. */
  ghost predicate TickedUpTo(before: map<SleepId, Sleeper>, now: map<SleepId, Sleeper>, keys: seq<SleepId>, n: nat)
    requires n <= |keys|
  {
    now.Keys == before.Keys && forall i :: i in before ==> now[i] == if i in keys[..n] then Ticked(before[i]) else before[i]
  }

  lemma TickOne(before: map<SleepId, Sleeper>, now: map<SleepId, Sleeper>, keys: seq<SleepId>, n: nat)
    requires n < |keys| && Distinct(keys) && TickedUpTo(before, now, keys, n) && keys[n] in before
    ensures keys[n] in now && now[keys[n]] == before[keys[n]]
    ensures TickedUpTo(before, now[keys[n] := Ticked(before[keys[n]])], keys, n + 1)
  {
    assert keys[n] !in keys[..n];
    assert keys[..n + 1] == keys[..n] + [keys[n]];
  }

  lemma NoneTicked(before: map<SleepId, Sleeper>, keys: seq<SleepId>)
    ensures TickedUpTo(before, before, keys, 0) && Woken(before, keys[..0]) == []
  {
  }

  lemma AllKeysTicked(before: map<SleepId, Sleeper>, now: map<SleepId, Sleeper>, keys: seq<SleepId>)
    requires TickedUpTo(before, now, keys, |keys|) && forall i :: i in before ==> i in keys
    ensures now == AllTicked(before)
  {
    assert keys[..|keys|] == keys;
  }

  class TimerTasksManager {
    var tasks: map<SleepId, Sleeper>
    var nextId: SleepId

    /** Ids count up and are never reused. */
    ghost predicate Valid()
      reads this
    {
      forall i :: i in tasks ==> i < nextId
    }

    constructor ()
      ensures Valid() && tasks == map[] && nextId == 0
    {
      tasks, nextId := map[], 0;
    }

    method RegisterTask(id: SleepId, ticks: nat) returns (ok: bool)
      modifies `tasks
      ensures ok <==> id !in old(tasks)
      ensures tasks == if ok then old(tasks)[id := Sleeper(ticks, None)] else old(tasks)
    {
      if id in tasks {
        return false;
      }
      tasks := tasks[id := Sleeper(ticks, None)];
      return true;
    }

    /** Sleep::new: registering the fresh id never fails. */
    method NewSleep(ms: nat) returns (id: SleepId)
      requires Valid()
      modifies this
      ensures Valid() && id == old(nextId) && id !in old(tasks)
      ensures tasks == old(tasks)[id := Sleeper(if ms / 4 == 0 then 1 else ms / 4, None)]
    {
      id := nextId;
      nextId := nextId + 1;
      var msecFreq := 1000 / TIMER_FREQUENCY;
      var timerValue := if ms < msecFreq then 1 else ms / msecFreq;
      var ok := RegisterTask(id, timerValue);
      assert ok;
    }

    /** The body of decrement_all's loop. */
    method TickEntry(i: SleepId) returns (woken: seq<TaskId>)
      requires i in tasks
      modifies `tasks
      ensures tasks == old(tasks)[i := Ticked(old(tasks)[i])]
      ensures var e := old(tasks)[i]; woken == if e.ticks <= 1 && e.waker.Some? then [e.waker.value] else []
    {
      woken := [];
      var val := tasks[i];
      val := val.(ticks := if val.ticks == 0 then 0 else val.ticks - 1);
      if val.ticks == 0 {
        if val.waker.Some? {
          woken := [val.waker.value];
        }
        val := val.(waker := None);
      }
      tasks := tasks[i := val];
    }

    /** decrement_all: every entry loses a tick once, in ascending order, and exactly those that have
        none left wake their tasks. */
    method DecrementAll() returns (woken: seq<TaskId>)
      requires Valid()
      modifies `tasks
      ensures Valid() && tasks == AllTicked(old(tasks))
      ensures woken == Woken(old(tasks), SortedKeysBelow(old(tasks), nextId))
    {
      hide TickedUpTo, Woken, Ticked, SortedKeysBelow;
      ghost var before := tasks;
      var keys := SortedKeysBelow(tasks, nextId);
      woken := [];
      NoneTicked(before, keys);
      for n := 0 to |keys|
        invariant TickedUpTo(before, tasks, keys, n) && woken == Woken(before, keys[..n])
      {
        TickOne(before, tasks, keys, n);
        WokenOneMore(before, keys, n);
        var w := TickEntry(keys[n]);
        woken := woken + w;
      }
      assert keys[..|keys|] == keys;
      AllKeysTicked(before, tasks, keys);
    }

    /** check_task: None is a panic, for an unknown id. */
    method CheckTask(id: SleepId) returns (done: Option<bool>)
      modifies `tasks
      ensures done.None? <==> id !in old(tasks)
      ensures done.Some? ==> (done.value <==> old(tasks)[id].ticks == 0)
      ensures tasks == if done == Some(true) then old(tasks) - {id} else old(tasks)
    {
      if id !in tasks {
        return None;
      }
      if tasks[id].ticks == 0 {
        tasks := tasks - {id};
        return Some(true);
      }
      return Some(false);
    }

    method RegisterWaker(id: SleepId, waker: TaskId) returns (ok: bool)
      modifies `tasks
      ensures ok <==> id in old(tasks)
      ensures tasks == if ok then old(tasks)[id := old(tasks)[id].(waker := Some(waker))] else old(tasks)
    {
      if id !in tasks {
        return false;
      }
      tasks := tasks[id := tasks[id].(waker := Some(waker))];
      return true;
    }
  }

  // ---- The same pass as atomic steps ------------------------------------------------------------------------

  function Repeat(n: nat): (r: seq<Action>)
    ensures |r| == n
  {
    if n == 0 then [] else [Step(Plain)] + Repeat(n - 1)
  }

  /** How many atomic steps a pass takes: one for an entry, one more to wake it, one to end. */
  function PassLength(m: map<SleepId, Sleeper>, rest: seq<SleepId>): nat
    requires forall i :: i in rest ==> i in m
    decreases |rest|
  {
    if rest == [] then 1 else (if m[rest[0]].ticks <= 1 then 2 else 1) + PassLength(m, rest[1..])
  }

  /** The machine in the middle of a pass. */
  ghost predicate InPass(s: State, id: TaskId, rest: seq<SleepId>) {
    && s.pc == Decrement(id, rest) && Distinct(rest) && (forall i :: i in rest ==> i in s.manager.sleepers)
    && |s.ready| + |rest| <= QUEUE_CAPACITY
  }

  lemma RunFew(s: State)
    ensures Run(s, Repeat(1)) == Next(s, Step(Plain)) && Run(s, Repeat(2)) == Next(Next(s, Step(Plain)), Step(Plain))
  {
    hide Next;
    var s1 := Next(s, Step(Plain));
    assert Repeat(1)[1..] == [] && Repeat(2)[1..] == Repeat(1);
    assert Run(s, Repeat(1)) == Run(s1, []);
    assert Run(s1, Repeat(1)) == Run(Next(s1, Step(Plain)), []);
  }

  /** The counter of an entry, then its waker. */
  lemma CounterStep(s: State, id: TaskId, rest: seq<SleepId>)
    requires InPass(s, id, rest) && rest != []
    ensures var i, e := rest[0], s.manager.sleepers[rest[0]];
            var s' := Next(s, Step(Plain));
            && s'.ready == s.ready
            && s'.manager.sleepers == s.manager.sleepers[i := e.(ticks := if e.ticks == 0 then 0 else e.ticks - 1)]
            && s'.pc == if e.ticks <= 1 then WakeSleeper(id, i, rest[1..]) else Decrement(id, rest[1..])
  {
  }

  lemma WakerStep(s: State, id: TaskId, i: SleepId, rest: seq<SleepId>)
    requires s.pc == WakeSleeper(id, i, rest) && i in s.manager.sleepers && |s.ready| < QUEUE_CAPACITY
    ensures var e := s.manager.sleepers[i];
            var s' := Next(s, Step(Plain));
            && s'.ready == s.ready + (if e.waker.Some? then [e.waker.value] else [])
            && s'.manager.sleepers == s.manager.sleepers[i := e.(waker := None)] && s'.pc == Decrement(id, rest)
  {
    assert s.ready + [] == s.ready;
  }

  /** One entry, in one or two steps. */
  lemma EntryVisited(s: State, id: TaskId, rest: seq<SleepId>)
    requires InPass(s, id, rest) && rest != []
    ensures var e := s.manager.sleepers[rest[0]];
            var s' := Run(s, Repeat(if e.ticks <= 1 then 2 else 1));
            && InPass(s', id, rest[1..]) && s'.manager.sleepers == s.manager.sleepers[rest[0] := Ticked(e)]
            && s'.ready == s.ready + (if e.ticks <= 1 && e.waker.Some? then [e.waker.value] else [])
  {
    hide Next, Run, Repeat;
    RunFew(s);
    CounterStep(s, id, rest);
    if s.manager.sleepers[rest[0]].ticks <= 1 {
      WakerStep(Next(s, Step(Plain)), id, rest[0], rest[1..]);
    } else {
      assert s.ready + [] == s.ready;
    }
    assert forall i :: i in rest[1..] ==> i in rest;
  }

  lemma {:induction false} RunInTwo(s: State, n: nat, m: nat)
    ensures Run(s, Repeat(n + m)) == Run(Run(s, Repeat(n)), Repeat(m))
    decreases n
  {
    hide Next;
    if n > 0 {
      assert Repeat(n + m)[1..] == Repeat(n - 1 + m) && Repeat(n)[1..] == Repeat(n - 1);
      RunInTwo(Next(s, Step(Plain)), n - 1, m);
    }
  }

  lemma {:induction false} PassLengthFrame(m: map<SleepId, Sleeper>, m': map<SleepId, Sleeper>, keys: seq<SleepId>)
    requires forall i :: i in keys ==> i in m && i in m' && m'[i] == m[i]
    ensures PassLength(m', keys) == PassLength(m, keys)
    decreases |keys|
  {
    if keys != [] {
      PassLengthFrame(m, m', keys[1..]);
    }
  }

  /** What a whole pass does. */
  ghost predicate PassDone(s: State, s': State, id: TaskId, rest: seq<SleepId>)
    requires forall i :: i in rest ==> i in s.manager.sleepers
  {
    && s'.pc == TimerFirst(id) && s'.ready == s.ready + Woken(s.manager.sleepers, rest)
    && TickedUpTo(s.manager.sleepers, s'.manager.sleepers, rest, |rest|)
  }

  lemma PassContinues(s: State, s1: State, s': State, id: TaskId, rest: seq<SleepId>)
    requires InPass(s, id, rest) && rest != [] && InPass(s1, id, rest[1..]) && PassDone(s1, s', id, rest[1..])
    requires s1.manager.sleepers == s.manager.sleepers[rest[0] := Ticked(s.manager.sleepers[rest[0]])]
    requires var e := s.manager.sleepers[rest[0]]; s1.ready == s.ready + (if e.ticks <= 1 && e.waker.Some? then [e.waker.value] else [])
    ensures PassDone(s, s', id, rest)
  {
    assert rest[1..][..|rest[1..]|] == rest[1..] && rest[..|rest|] == rest;
    assert forall i :: i in rest <==> i == rest[0] || i in rest[1..];
    assert rest[0] !in rest[1..];
    WokenFrame(s.manager.sleepers, s1.manager.sleepers, rest[1..]);
  }

  /** Without an interrupt in between, the steps of a pass do what decrement_all does: each entry
      ahead ticks once, and the woken tasks are queued in order. */
  lemma {:induction false} PassTicksAll(s: State, id: TaskId, rest: seq<SleepId>)
    requires InPass(s, id, rest)
    ensures PassDone(s, Run(s, Repeat(PassLength(s.manager.sleepers, rest))), id, rest)
    decreases |rest|
  {
    hide Next, Run, Repeat, PassDone;
    var m := s.manager.sleepers;
    if rest == [] {
      PassEnds(s, id);
    } else {
      var k := if m[rest[0]].ticks <= 1 then 2 else 1;
      var s1 := Run(s, Repeat(k));
      EntryVisited(s, id, rest);
      assert forall i :: i in rest[1..] ==> i in rest && i != rest[0];
      PassLengthFrame(m, s1.manager.sleepers, rest[1..]);
      RunInTwo(s, k, PassLength(m, rest[1..]));
      PassTicksAll(s1, id, rest[1..]);
      PassContinues(s, s1, Run(s1, Repeat(PassLength(m, rest[1..]))), id, rest);
    }
  }

  lemma PassEnds(s: State, id: TaskId)
    requires s.pc == Decrement(id, [])
    ensures PassDone(s, Run(s, Repeat(1)), id, [])
  {
    assert Repeat(1) == [Step(Plain)] && Repeat(1)[1..] == [];
    assert Run(s, Repeat(1)) == Run(Next(s, Step(Plain)), []);
    assert s.ready + [] == s.ready;
  }
}
