/**
 * The countdown multiplexer: one periodic timer that ticks every registered countdown task,
 * keyed by its listener.
 *
 * A task is reduced to what the service reads from it and does to it: its listener key,
 * its remaining counter, its cancelled flag and its listening flag. The hooks the service
 * invokes (`eachRun`, `finalRun`) are appended to a ghost log of events.
 */
module Countdown {
  import opened Wrappers

  /** Opaque, value-compared key of the subscriber a task counts down for. */
  datatype Listener = Listener(id: nat)

  /** What the service sees of a countdown task. */
  datatype Task = Task(listener: Listener, remaining: int, canceled: bool, listening: bool)

  /** A hook invocation; `EachRun` records the counter the hook observes (before the decrement). */
  datatype Event = EachRun(listener: Listener, remaining: int) | FinalRun(listener: Listener)

  /** No listener occurs twice in an iteration order. */
  predicate Distinct(order: seq<Listener>)
  {
    forall i, j :: 0 <= i < j < |order| ==> order[i] != order[j]
  }

  /** The hooks among `events` that were invoked on a task under `k`, in order. */
  function EventsOf(events: seq<Event>, k: Listener): (r: seq<Event>)
    ensures forall e :: e in r <==> e in events && e.listener == k
  {
    if events == [] then []
    else (if events[0].listener == k then [events[0]] else []) + EventsOf(events[1..], k)
  }

  lemma EventsOfCons(e: Event, rest: seq<Event>, k: Listener)
    ensures EventsOf([e] + rest, k) == (if e.listener == k then [e] else []) + EventsOf(rest, k)
  {
    assert ([e] + rest)[0] == e && ([e] + rest)[1..] == rest;
  }

  lemma {:induction false} EventsOfAppend(a: seq<Event>, b: seq<Event>, k: Listener)
    ensures EventsOf(a + b, k) == EventsOf(a, k) + EventsOf(b, k)
  {
    if a != [] {
      assert a == [a[0]] + a[1..];
      assert a + b == [a[0]] + (a[1..] + b);
      EventsOfCons(a[0], a[1..] + b, k);
      EventsOfCons(a[0], a[1..], k);
      EventsOfAppend(a[1..], b, k);
    } else {
      assert a + b == b;
    }
  }

  /** The hooks of `k` among one or two hook invocations. */
  lemma EventsOfShort(e1: Event, e2: Event, k: Listener)
    ensures EventsOf([e1], k) == if e1.listener == k then [e1] else []
    ensures EventsOf([e1, e2], k) == (if e1.listener == k then [e1] else []) + (if e2.listener == k then [e2] else [])
  {
    EventsOfCons(e1, [], k);
    EventsOfCons(e2, [], k);
    assert [e1, e2] == [e1] + [e2];
    EventsOfCons(e1, [e2], k);
  }

  // ---------------------------------------------------------------------------------------
  // One tick, as the service's loop performs it

  /**
   * The loop body of one tick on the entry under `k`: a cancelled task is dropped; otherwise
   * `eachRun` runs and the counter is decremented; below zero `finalRun` runs and that task is
   * dropped; a task still counting but no longer listening is dropped. An entry that is no
   * longer in the map is not visited.
   */
  function Step(tasks: map<Listener, Task>, k: Listener): (map<Listener, Task>, seq<Event>)
  {
    if k !in tasks then (tasks, [])
    else
      var task := tasks[k];
      if task.canceled then (tasks - {k}, [])
      else
        var decreased := task.(remaining := task.remaining - 1);
        if decreased.remaining < 0 then (tasks - {k}, [EachRun(k, task.remaining), FinalRun(k)])
        else if !task.listening then (tasks - {k}, [EachRun(k, task.remaining)])
        else (tasks[k := decreased], [EachRun(k, task.remaining)])
  }

  /** One tick visiting the entries in `order`: the resulting map and the hooks invoked. */
  function Tick(tasks: map<Listener, Task>, order: seq<Listener>): (map<Listener, Task>, seq<Event>)
    decreases |order|
  {
    if order == [] then (tasks, [])
    else
      var first := Step(tasks, order[0]);
      var rest := Tick(first.0, order[1..]);
      (rest.0, first.1 + rest.1)
  }

  // ---------------------------------------------------------------------------------------
  // What one tick does to a single task, stated independently of the loop

  /** What a tick leaves of a task in the map, or None when the tick drops it. */
  function Advance(task: Task): Option<Task>
  {
    if task.canceled || task.remaining < 1 || !task.listening then None
    else Some(task.(remaining := task.remaining - 1))
  }

  /** The hooks a tick invokes on a task under `k`. */
  function Hooks(k: Listener, task: Task): seq<Event>
  {
    if task.canceled then []
    else if task.remaining < 1 then [EachRun(k, task.remaining), FinalRun(k)]
    else [EachRun(k, task.remaining)]
  }

  /** The map a tick over every entry leaves behind, entry by entry. */
  function Survivors(tasks: map<Listener, Task>): map<Listener, Task>
  {
    map k | k in tasks && Advance(tasks[k]).Some? :: Advance(tasks[k]).value
  }

  /** Visiting `j` leaves the entry and the hooks of every other listener alone. */
  lemma StepOther(tasks: map<Listener, Task>, j: Listener, k: Listener)
    requires j != k
    ensures k in Step(tasks, j).0 <==> k in tasks
    ensures k in Step(tasks, j).0 ==> Step(tasks, j).0[k] == tasks[k]
    ensures EventsOf(Step(tasks, j).1, k) == []
  {
    EventsOfShort(EachRun(j, 0), FinalRun(j), k);
    if j in tasks {
      EventsOfShort(EachRun(j, tasks[j].remaining), FinalRun(j), k);
    }
  }

  /** Visiting `k` leaves its entry as `Advance` says and invokes exactly the hooks `Hooks` says. */
  lemma StepSelf(tasks: map<Listener, Task>, k: Listener)
    ensures k in Step(tasks, k).0 <==> k in tasks && Advance(tasks[k]).Some?
    ensures k in Step(tasks, k).0 ==> Step(tasks, k).0[k] == Advance(tasks[k]).value
    ensures EventsOf(Step(tasks, k).1, k) == if k in tasks then Hooks(k, tasks[k]) else []
  {
    if k in tasks {
      EventsOfShort(EachRun(k, tasks[k].remaining), FinalRun(k), k);
    }
  }

  /**
   * Visiting one listener affects only that listener's entry and hooks: a visited entry ends
   * as `Advance` says with exactly the hooks `Hooks` says; an unvisited one is untouched.
   */
  lemma {:induction false} TickPerKey(tasks: map<Listener, Task>, order: seq<Listener>, k: Listener)
    requires Distinct(order)
    ensures k in order ==>
              && (k in Tick(tasks, order).0 <==> k in tasks && Advance(tasks[k]).Some?)
              && (k in Tick(tasks, order).0 ==> Tick(tasks, order).0[k] == Advance(tasks[k]).value)
              && EventsOf(Tick(tasks, order).1, k) == (if k in tasks then Hooks(k, tasks[k]) else [])
    ensures k !in order ==>
              && (k in Tick(tasks, order).0 <==> k in tasks)
              && (k in Tick(tasks, order).0 ==> Tick(tasks, order).0[k] == tasks[k])
              && EventsOf(Tick(tasks, order).1, k) == []
    decreases |order|
  {
    if order != [] {
      var j := order[0];
      var first := Step(tasks, j);
      var rest := order[1..];
      var after := Tick(first.0, rest);
      assert Tick(tasks, order) == (after.0, first.1 + after.1);
      assert Distinct(rest) by {
        forall a, b | 0 <= a < b < |rest| ensures rest[a] != rest[b] {
          assert rest[a] == order[a + 1] && rest[b] == order[b + 1];
        }
      }
      TickPerKey(first.0, rest, k);
      EventsOfAppend(first.1, after.1, k);
      if k == j {
        assert k !in rest by {
          forall a | 0 <= a < |rest| ensures rest[a] != k {
            assert rest[a] == order[a + 1];
          }
        }
        StepSelf(tasks, k);
      } else {
        StepOther(tasks, j, k);
        assert k in order <==> k in rest;
      }
    }
  }

  /**
   * A tick that visits every entry exactly once leaves `Survivors` in the map and invokes on
   * each task exactly the hooks `Hooks` gives it; a listener without a task gets no hook.
   */
  lemma TickMatchesReference(tasks: map<Listener, Task>, order: seq<Listener>)
    requires Distinct(order)
    requires forall k :: k in order <==> k in tasks
    ensures Tick(tasks, order).0 == Survivors(tasks)
    ensures forall k :: EventsOf(Tick(tasks, order).1, k) == if k in tasks then Hooks(k, tasks[k]) else []
  {
    var m := Tick(tasks, order).0;
    forall k ensures (k in m <==> k in Survivors(tasks)) && (k in m ==> m[k] == Survivors(tasks)[k])
                 && EventsOf(Tick(tasks, order).1, k) == if k in tasks then Hooks(k, tasks[k]) else [] {
      TickPerKey(tasks, order, k);
    }
  }

  /** The hooks a tick invokes do not depend on the order in which it visits the entries. */
  lemma TickOrderIndependent(tasks: map<Listener, Task>, order1: seq<Listener>, order2: seq<Listener>)
    requires Distinct(order1) && forall k :: k in order1 <==> k in tasks
    requires Distinct(order2) && forall k :: k in order2 <==> k in tasks
    ensures Tick(tasks, order1).0 == Tick(tasks, order2).0
    ensures forall k :: EventsOf(Tick(tasks, order1).1, k) == EventsOf(Tick(tasks, order2).1, k)
  {
    TickMatchesReference(tasks, order1);
    TickMatchesReference(tasks, order2);
  }

  /** A cancelled task is dropped and gets no hook: no `eachRun`, no decrement, no `finalRun`. */
  lemma CanceledTaskGetsNoHooks(tasks: map<Listener, Task>, order: seq<Listener>, k: Listener)
    requires Distinct(order) && forall l :: l in order <==> l in tasks
    requires k in tasks && tasks[k].canceled
    ensures k !in Tick(tasks, order).0
    ensures forall e :: e in Tick(tasks, order).1 ==> e.listener != k
  {
    TickPerKey(tasks, order, k);
    assert EventsOf(Tick(tasks, order).1, k) == [];
  }

  /** A task not cancelled gets exactly one `eachRun`, which sees the counter before the decrement. */
  lemma LiveTaskRunsOnce(tasks: map<Listener, Task>, order: seq<Listener>, k: Listener)
    requires Distinct(order) && forall l :: l in order <==> l in tasks
    requires k in tasks && !tasks[k].canceled
    ensures var hooks := EventsOf(Tick(tasks, order).1, k);
            && |hooks| > 0 && hooks[0] == EachRun(k, tasks[k].remaining)
            && forall i :: 0 < i < |hooks| ==> !hooks[i].EachRun?
  {
    TickPerKey(tasks, order, k);
  }

  /**
   * `finalRun` is invoked on a task exactly when its decremented counter is below zero, at
   * most once in the tick, after its `eachRun`, and that task is then no longer in the map.
   */
  lemma FinalRunExactlyWhenExpired(tasks: map<Listener, Task>, order: seq<Listener>, k: Listener)
    requires Distinct(order) && forall l :: l in order <==> l in tasks
    ensures FinalRun(k) in Tick(tasks, order).1 <==> k in tasks && !tasks[k].canceled && tasks[k].remaining - 1 < 0
    ensures FinalRun(k) in Tick(tasks, order).1 ==>
              && k !in Tick(tasks, order).0
              && EventsOf(Tick(tasks, order).1, k) == [EachRun(k, tasks[k].remaining), FinalRun(k)]
  {
    TickPerKey(tasks, order, k);
    var events := Tick(tasks, order).1;
    assert FinalRun(k) in events <==> FinalRun(k) in EventsOf(events, k);
  }

  /**
   * A task not cancelled whose decremented counter is still non-negative gets no `finalRun`;
   * it is dropped exactly when it is no longer listening, and otherwise stays with its counter
   * one lower and nothing else changed.
   */
  lemma CountingTaskDroppedIffNotListening(tasks: map<Listener, Task>, order: seq<Listener>, k: Listener)
    requires Distinct(order) && forall l :: l in order <==> l in tasks
    requires k in tasks && !tasks[k].canceled && tasks[k].remaining - 1 >= 0
    ensures FinalRun(k) !in Tick(tasks, order).1
    ensures k !in Tick(tasks, order).0 <==> !tasks[k].listening
    ensures k in Tick(tasks, order).0 ==> Tick(tasks, order).0[k] == tasks[k].(remaining := tasks[k].remaining - 1)
  {
    FinalRunExactlyWhenExpired(tasks, order, k);
    TickPerKey(tasks, order, k);
  }

  /** A tick never adds a task: every entry after it was there before, with its counter one lower. */
  lemma TickOnlyDecrementsOrDrops(tasks: map<Listener, Task>, order: seq<Listener>, k: Listener)
    requires Distinct(order) && forall l :: l in order <==> l in tasks
    requires k in Tick(tasks, order).0
    ensures k in tasks && !tasks[k].canceled && tasks[k].listening
    ensures Tick(tasks, order).0[k] == tasks[k].(remaining := tasks[k].remaining - 1)
    ensures Tick(tasks, order).0[k].remaining >= 0
  {
    TickPerKey(tasks, order, k);
  }

  // ---------------------------------------------------------------------------------------
  // The service

  class CountdownService {
    /** The registered tasks, one per listener. */
    var listenerToTask: map<Listener, Task>
    /** Whether the periodic executor exists (the executor field is non-null). */
    var timerPresent: bool
    /** How many periodic executors have been created so far. */
    ghost var timersStarted: nat
    /** Every hook invoked so far, in order. */
    ghost var hooks: seq<Event>

    /** Each task is filed under its own listener, and the timer exists iff some task does. */
    ghost predicate Valid()
      reads this
    {
      && (forall k :: k in listenerToTask ==> listenerToTask[k].listener == k)
      && (timerPresent <==> listenerToTask != map[])
    }

    constructor ()
      ensures Valid()
      ensures listenerToTask == map[] && !timerPresent && timersStarted == 0 && hooks == []
    {
      listenerToTask := map[];
      timerPresent := false;
      timersStarted := 0;
      hooks := [];
    }

    /**
     * One tick of the timer, visiting every entry once in the iteration order `order`.
     */
    method Run(order: seq<Listener>)
      requires Valid()
      requires Distinct(order) && forall k :: k in order <==> k in listenerToTask
      modifies this
      ensures Valid()
      ensures listenerToTask == Tick(old(listenerToTask), order).0 == Survivors(old(listenerToTask))
      ensures hooks == old(hooks) + Tick(old(listenerToTask), order).1
      ensures timersStarted == old(timersStarted)
    {
      var i := 0;
      while i < |order|
        invariant 0 <= i <= |order|
        invariant Valid()
        invariant timersStarted == old(timersStarted)
        invariant Tick(listenerToTask, order[i..]).0 == Tick(old(listenerToTask), order).0
        invariant hooks + Tick(listenerToTask, order[i..]).1 == old(hooks) + Tick(old(listenerToTask), order).1
      {
        var k := order[i];
        assert order[i..][1..] == order[i + 1..];
        RunTask(k);
        i := i + 1;
      }
      TickMatchesReference(old(listenerToTask), order);
    }

    /**
     * The loop body of a tick on the entry under `k`: drop it if cancelled; otherwise
     * `eachRun`, decrement, and either `finalRun` and drop it (below zero), drop it (not
     * listening) or keep it with the decremented counter.
     */
    method RunTask(k: Listener)
      requires Valid()
      modifies this
      ensures Valid()
      ensures listenerToTask == Step(old(listenerToTask), k).0
      ensures hooks == old(hooks) + Step(old(listenerToTask), k).1
      ensures timersStarted == old(timersStarted)
    {
      if k in listenerToTask {
        var task := listenerToTask[k];
        if task.canceled {
          var _ := RemoveCountdownTask(task);
        } else {
          hooks := hooks + [EachRun(k, task.remaining)];
          task := task.(remaining := task.remaining - 1);
          if task.remaining < 0 {
            hooks := hooks + [FinalRun(k)];
            var _ := RemoveCountdownTask(task);
          } else if !task.listening {
            var _ := RemoveCountdownTask(task);
          } else {
            listenerToTask := listenerToTask[k := task];
          }
        }
      }
    }

    /** Registers `task` under its listener, replacing any earlier task there, and starts the timer if absent. */
    method AddCountdownTask(task: Task)
      requires Valid()
      modifies this
      ensures Valid()
      ensures listenerToTask == old(listenerToTask)[task.listener := task]
      ensures timerPresent
      ensures timersStarted == old(timersStarted) + (if old(timerPresent) then 0 else 1)
      ensures hooks == old(hooks)
    {
      listenerToTask := listenerToTask[task.listener := task];
      assert task.listener in listenerToTask;
      if !timerPresent {
        StartCountdown();
      }
    }

    /**
     * Drops the entry under its listener; the removal that leaves the map empty shuts the
     * timer down. Reports `nullTimer` when the map was already empty: there is no timer to shut
     * down then (the executor reference is null).
     */
    method RemoveCountdownTask(task: Task) returns (nullTimer: bool)
      requires Valid()
      modifies this`listenerToTask, this`timerPresent
      ensures Valid()
      ensures listenerToTask == old(listenerToTask) - {task.listener}
      ensures timerPresent <==> listenerToTask != map[]
      ensures nullTimer <==> old(listenerToTask) == map[]
    {
      nullTimer := false;
      listenerToTask := listenerToTask - {task.listener};
      if listenerToTask == map[] {
        nullTimer := !timerPresent;
        timerPresent := false;
      }
    }

    /** Creates the periodic executor unless one exists. */
    method StartCountdown()
      modifies this`timerPresent, this`timersStarted
      ensures timerPresent
      ensures timersStarted == old(timersStarted) + (if old(timerPresent) then 0 else 1)
    {
      if !timerPresent {
        timerPresent := true;
        timersStarted := timersStarted + 1;
      }
    }
  }

  /**
   * Two tables registering countdowns share one timer; once both tasks are cancelled a tick
   * shuts it down, and a later registration starts a fresh one.
   */
  method TwoCountdownsShareOneTimer()
  {
    var service := new CountdownService();
    var a, b := Listener(1), Listener(2);
    service.AddCountdownTask(Task(a, 3, false, true));
    service.AddCountdownTask(Task(b, 3, false, true));
    assert service.timersStarted == 1;

    service.AddCountdownTask(Task(a, 3, true, true));
    service.AddCountdownTask(Task(b, 3, true, true));
    service.Run([a, b]);
    assert service.listenerToTask == map[];
    assert !service.timerPresent;

    service.AddCountdownTask(Task(a, 2, false, true));
    assert service.timerPresent && service.timersStarted == 2;
  }
}
