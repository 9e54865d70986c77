/** The shared pool of Web Workers, as a machine driven by acquisitions, posts, replies, crashes, timeouts and
    termination. */
module WorkerPools {
  import opened Common
  import Amount
  import Digits

  /** A pending entry: which promise it settles, where it was posted, and its timeout timer. */
  datatype Pending = Pending(task: nat, worker: nat, timer: Option<nat>)

  /** Promises are numbered in the order of posting, and a promise's timer carries its number. The promises whose post
      threw inside the executor are among the settled ones: they are rejected at once, and their entry stays. Settled
      promises that are not resolved are rejected. */
  datatype Pool = Pool(
    workers: seq<nat>,
    nextInstance: nat,
    pending: map<string, Pending>,
    timers: map<nat, string>,
    idCounter: nat,
    current: nat,
    terminated: bool,
    timeouts: bool,
    posted: nat,
    settled: set<nat>,
    thrown: set<nat>,
    resolved: set<nat>)

  datatype Event =
    | Acquire
    | Post(worker: nat, id: Option<string>, cloneable: bool)
    | Reply(task: string, success: bool)
    | Crash(index: nat, instance: nat)
    | TimerFires(timer: nat)
    | Terminate

  function PoolId(n: nat): string { "pool-" + Amount.ToText(n) }

  /** The id under which a post is entered. */
  function TaskId(s: Pool, e: Event): string
    requires e.Post?
  {
    if e.id.Some? then e.id.value else PoolId(s.idCounter + 1)
  }

  /** A post whose worker is gone, or whose payload cannot be cloned, throws. */
  predicate Throws(s: Pool, e: Event)
  {
    e.Post? && (e.worker >= |s.workers| || !e.cloneable)
  }

  /** Removing entries clears their timers and settles their promises. */
  ghost function Remove(s: Pool, ids: set<string>): Pool
  {
    s.(pending := s.pending - ids,
       timers := s.timers - (set id | id in ids && id in s.pending && s.pending[id].timer.Some? :: s.pending[id].timer.value),
       settled := s.settled + set id | id in ids && id in s.pending :: s.pending[id].task)
  }

  ghost function OnWorker(s: Pool, index: nat): set<string>
  {
    set id | id in s.pending && s.pending[id].worker == index
  }

  /** The entries an event removes. */
  ghost function Removed(s: Pool, e: Event): set<string>
  {
    match e
    case Acquire => {}
    case Post(_, _, _) => {}
    case Reply(id, _) => {id} * s.pending.Keys
    case Crash(index, _) => OnWorker(s, index)
    case TimerFires(timer) => if timer in s.timers then {s.timers[timer]} * s.pending.Keys else {}
    case Terminate => s.pending.Keys
  }

  ghost function Step(s: Pool, e: Event): Pool
  {
    match e
    case Acquire =>
      s.(current := if s.workers == [] then s.current else (s.current + 1) % |s.workers|)
    case Post(worker, _, _) =>
      var throws := if Throws(s, e) then {s.posted} else {};
      var timer := if s.timeouts then Some(s.posted) else None;
      s.(idCounter := if e.id.Some? then s.idCounter else s.idCounter + 1,
         pending := s.pending[TaskId(s, e) := Pending(s.posted, worker, timer)],
         timers := if s.timeouts then s.timers[s.posted := TaskId(s, e)] else s.timers,
         posted := s.posted + 1,
         settled := s.settled + throws,
         thrown := s.thrown + throws)
    case Reply(_, success) =>
      var r := Remove(s, Removed(s, e));
      if success then r.(resolved := s.resolved + (r.settled - s.settled)) else r
    case Crash(index, instance) =>
      var r := Remove(s, Removed(s, e));
      if !s.terminated && index < |s.workers| && s.workers[index] == instance then
        r.(workers := s.workers[index := s.nextInstance], nextInstance := s.nextInstance + 1)
      else r
    case TimerFires(timer) =>
      Remove(s.(timers := s.timers - {timer}), Removed(s, e))
    case Terminate =>
      Remove(s, Removed(s, e)).(workers := [], terminated := true, current := 0)
  }

  const NO_WORKERS := "WorkerPool not initialized (no workers available)"
  const INVALID_INDEX := "Invalid worker index: "

  method Enumerate(m: map<string, Pending>) returns (ids: seq<string>)
    ensures forall id :: id in ids <==> id in m
    ensures forall i, j :: 0 <= i < j < |ids| ==> ids[i] != ids[j]
  {
    ids := [];
    var rest := m.Keys;
    while rest != {}
      invariant forall id :: id in m <==> id in ids || id in rest
      invariant forall id :: id in ids ==> id !in rest
      invariant forall i, j :: 0 <= i < j < |ids| ==> ids[i] != ids[j]
      decreases rest
    {
      var id :| id in rest;
      ids := ids + [id];
      rest := rest - {id};
    }
  }

  class WorkerPool {
    var workers: seq<nat>
    var nextInstance: nat
    var pendingTasks: map<string, Pending>
    var timers: map<nat, string>
    var idCounter: nat
    var currentWorkerIndex: nat
    var terminated: bool
    const timeouts: bool
    var posted: nat
    var settled: set<nat>
    var thrown: set<nat>
    var resolved: set<nat>

    ghost function Abs(): Pool
      reads this
    {
      Pool(workers, nextInstance, pendingTasks, timers, idCounter, currentWorkerIndex, terminated, timeouts, posted, settled, thrown,
        resolved)
    }

    constructor (size: nat, taskTimeoutMs: nat)
      ensures Abs() == Start(size, taskTimeoutMs > 0)
    {
      workers, nextInstance := seq(size, i => i), size;
      pendingTasks, timers, idCounter, currentWorkerIndex := map[], map[], 0, 0;
      terminated, timeouts, posted, settled, thrown, resolved := false, taskTimeoutMs > 0, 0, {}, {}, {};
    }

    /** Round robin; None is the error on an empty pool. */
    method AcquireWorker() returns (index: Option<nat>)
      requires workers == [] || currentWorkerIndex < |workers|
      modifies this`currentWorkerIndex
      ensures index == if workers == [] then None else Some(old(currentWorkerIndex))
      ensures Abs() == Step(old(Abs()), Acquire)
    {
      if |workers| == 0 {
        return None;
      }
      index := Some(currentWorkerIndex);
      currentWorkerIndex := (currentWorkerIndex + 1) % |workers|;
    }

    /** The part of `executeOnWorker` before it waits for the workers. */
    method CheckWorker(workerIndex: int) returns (r: Result<(), string>)
      ensures r.Ok? <==> 0 <= workerIndex < |workers|
      ensures r.Err? ==> r.error == if workers == [] then NO_WORKERS else INVALID_INDEX + Amount.ToText(workerIndex)
    {
      if |workers| == 0 {
        return Err(NO_WORKERS);
      }
      if workerIndex < 0 || workerIndex >= |workers| {
        return Err(INVALID_INDEX + Amount.ToText(workerIndex));
      }
      return Ok(());
    }

    /** The part after the wait. When the worker is gone by then, or `postMessage` cannot clone the payload, the executor
        throws: the promise is rejected at once, and its entry and timer stay behind. */
    method Execute(workerIndex: nat, id: Option<string>, cloneable: bool) returns (task: nat)
      modifies this
      ensures Abs() == Step(old(Abs()), Post(workerIndex, id, cloneable))
      ensures task == old(posted)
    {
      hide PoolId, Removed, Remove;
      if id == None {
        idCounter := idCounter + 1;
      }
      var taskId := if id.Some? then id.value else PoolId(idCounter);
      task := posted;
      posted := posted + 1;
      var timer := None;
      if timeouts {
        timers := timers[task := taskId];
        timer := Some(task);
      }
      pendingTasks := pendingTasks[taskId := Pending(task, workerIndex, timer)];
      if workerIndex >= |workers| || !cloneable {
        settled := settled + {task};
        thrown := thrown + {task};
      }
    }

    method ClearAndSettle(id: string)
      requires id in pendingTasks
      modifies this`pendingTasks, this`timers, this`settled
      ensures Abs() == Remove(old(Abs()), {id})
    {
      var entry := pendingTasks[id];
      if entry.timer.Some? {
        timers := timers - {entry.timer.value};
      }
      pendingTasks := pendingTasks - {id};
      settled := settled + {entry.task};
    }

    method OnMessage(id: string, success: bool)
      modifies this`pendingTasks, this`timers, this`settled, this`resolved
      ensures Abs() == Step(old(Abs()), Reply(id, success))
    {
      RemoveNothing(Abs());
      if id in pendingTasks {
        assert {id} * pendingTasks.Keys == {id};
        ghost var before := Abs();
        var isNew := pendingTasks[id].task !in settled;
        var task := pendingTasks[id].task;
        ClearAndSettle(id);
        if success && isNew {
          resolved := resolved + {task};
        }
        OneSettled(before, id);
      } else {
        assert {id} * pendingTasks.Keys == {};
      }
    }

    method OnTimeout(timer: nat)
      requires timer in timers
      modifies this`pendingTasks, this`timers, this`settled
      ensures Abs() == Step(old(Abs()), TimerFires(timer))
    {
      var taskId := timers[timer];
      timers := timers - {timer};
      RemoveNothing(Abs());
      if taskId in pendingTasks {
        assert {taskId} * pendingTasks.Keys == {taskId};
        ClearAndSettle(taskId);
      } else {
        assert {taskId} * pendingTasks.Keys == {};
      }
    }

    /** `rejectTasksForWorker` over a snapshot of the entries. */
    method RejectTasksForWorker(workerIndex: nat)
      modifies this`pendingTasks, this`timers, this`settled
      ensures Abs() == Remove(old(Abs()), OnWorker(old(Abs()), workerIndex))
    {
      hide Remove;
      ghost var before := Abs();
      var entries := Enumerate(pendingTasks);
      ghost var done: set<string> := {};
      RemoveNothing(before);
      for i := 0 to |entries|
        invariant Abs() == Remove(before, done)
        invariant done == set j | 0 <= j < i && before.pending[entries[j]].worker == workerIndex :: entries[j]
      {
        var id := entries[i];
        assert id !in done;
        RemovedPending(before, done);
        if pendingTasks[id].worker == workerIndex {
          ClearAndSettle(id);
          RemoveMore(before, done, id);
          done := done + {id};
        }
      }
      assert done == OnWorker(before, workerIndex);
    }

    method OnError(index: nat, instance: nat)
      modifies this`pendingTasks, this`timers, this`settled, this`workers, this`nextInstance
      ensures Abs() == Step(old(Abs()), Crash(index, instance))
    {
      RejectTasksForWorker(index);
      if !terminated && index < |workers| && workers[index] == instance {
        workers := workers[index := nextInstance];
        nextInstance := nextInstance + 1;
      }
    }

    method TerminatePool()
      modifies this
      ensures Abs() == Step(old(Abs()), Terminate)
    {
      hide Remove;
      terminated := true;
      workers := [];
      ghost var before := Abs();
      var entries := Enumerate(pendingTasks);
      ghost var done: set<string> := {};
      RemoveNothing(before);
      for i := 0 to |entries|
        invariant Abs() == Remove(before, done)
        invariant done == set j | 0 <= j < i :: entries[j]
      {
        var id := entries[i];
        assert id !in done;
        RemovedPending(before, done);
        ClearAndSettle(id);
        RemoveMore(before, done, id);
        done := done + {id};
      }
      assert done == before.pending.Keys;
      RemovedPending(before, done);
      RemoveCommutes(old(Abs()), before, done);
      pendingTasks := map[];
      currentWorkerIndex := 0;
    }
  }

  lemma OneSettled(s: Pool, id: string)
    requires id in s.pending
    ensures Remove(s, {id}).settled - s.settled == if s.pending[id].task in s.settled then {} else {s.pending[id].task}
  {
  }

  lemma RemoveNothing(s: Pool)
    ensures Remove(s, {}) == s
  {
  }

  lemma RemovedPending(s: Pool, ids: set<string>)
    ensures Remove(s, ids).pending == s.pending - ids
  {
  }

  /** Whether workers are dropped before or after the removal makes no difference. */
  lemma RemoveCommutes(s: Pool, t: Pool, ids: set<string>)
    requires t == s.(workers := [], terminated := true)
    ensures Remove(t, ids) == Remove(s, ids).(workers := [], terminated := true)
  {
  }

  lemma RemoveMore(s: Pool, ids: set<string>, id: string)
    requires id in s.pending && id !in ids
    ensures Remove(Remove(s, ids), {id}) == Remove(s, ids + {id})
  {
  }

  // --------------------------------------------------------------------- runs --

  function Start(size: nat, timeouts: bool): Pool
  {
    Pool(seq(size, i => i), size, map[], map[], 0, 0, false, timeouts, 0, {}, {}, {})
  }

  ghost function After(start: Pool, events: seq<Event>): Pool
  {
    if events == [] then start else Step(After(start, events[..|events| - 1]), events[|events| - 1])
  }

  /** The promise waits in the map, under some id. */
  ghost predicate Waiting(s: Pool, task: nat)
  {
    exists id :: id in s.pending && s.pending[id].task == task
  }

  /** Every posted promise is settled or waits in exactly one entry, whose timer, if timeouts are on, is live; and the
      only settled promises with an entry are those whose post threw. */
  ghost predicate Tracked(s: Pool)
  {
    && (forall task :: 0 <= task < s.posted ==> task in s.settled || Waiting(s, task))
    && (forall id :: id in s.pending ==> EntryTracked(s, id))
    && (forall id, id' :: id in s.pending && id' in s.pending && s.pending[id].task == s.pending[id'].task ==> id == id')
    && (forall task :: task in s.settled ==> task < s.posted)
    && s.thrown <= s.settled && s.resolved <= s.settled - s.thrown
    && (forall timer :: timer in s.timers ==> s.timeouts && s.timers[timer] in s.pending && s.pending[s.timers[timer]].task == timer)
  }

  ghost predicate EntryTracked(s: Pool, id: string)
    requires id in s.pending
  {
    var entry := s.pending[id];
    && entry.task < s.posted && (entry.task in s.settled <==> entry.task in s.thrown)
    && entry.timer == (if s.timeouts then Some(entry.task) else None)
    && (s.timeouts ==> entry.task in s.timers && s.timers[entry.task] == id)
  }

  lemma RemoveKeepsTrack(s: Pool, ids: set<string>)
    requires Tracked(s) && ids <= s.pending.Keys
    ensures Tracked(Remove(s, ids))
  {
    var r := Remove(s, ids);
    forall task | 0 <= task < r.posted ensures task in r.settled || Waiting(r, task) {
      if task !in s.settled {
        var id :| id in s.pending && s.pending[id].task == task;
        if id !in ids {
          assert id in r.pending;
        }
      }
    }
    forall id | id in ids ensures EntryTracked(s, id) {
    }
    forall id | id in r.pending ensures EntryTracked(r, id) {
      assert EntryTracked(s, id);
      EntryKept(s, ids, id);
    }
    forall timer | timer in r.timers ensures r.timers[timer] in r.pending && r.pending[r.timers[timer]].task == timer {
      assert EntryTracked(s, s.timers[timer]);
    }
  }

  lemma EntryKept(s: Pool, ids: set<string>, id: string)
    requires id in s.pending && id !in ids && ids <= s.pending.Keys && EntryTracked(s, id)
    requires forall id' :: id' in ids ==> EntryTracked(s, id') && s.pending[id'].task != s.pending[id].task
    ensures EntryTracked(Remove(s, ids), id)
  {
  }

  lemma PostedWaits(s: Pool, e: Event, task: nat)
    requires Tracked(s) && e.Post? && TaskId(s, e) !in s.pending && task <= s.posted
    ensures task in Step(s, e).settled || Waiting(Step(s, e), task)
  {
    hide TaskId;
    var r := Step(s, e);
    if task == s.posted {
      assert r.pending[TaskId(s, e)].task == task;
    } else if task !in s.settled {
      var id :| id in s.pending && s.pending[id].task == task;
      assert id in r.pending && r.pending[id].task == task;
    }
  }

  lemma PostedEntry(s: Pool, e: Event, id: string)
    requires Tracked(s) && e.Post? && TaskId(s, e) !in s.pending && id in Step(s, e).pending
    ensures EntryTracked(Step(s, e), id)
  {
    hide TaskId;
    if id != TaskId(s, e) {
      assert EntryTracked(s, id);
    }
  }

  lemma PostKeepsTrack(s: Pool, e: Event)
    requires Tracked(s) && e.Post? && TaskId(s, e) !in s.pending
    ensures Tracked(Step(s, e))
  {
    hide TaskId;
    var r := Step(s, e);
    forall task | 0 <= task < r.posted ensures task in r.settled || Waiting(r, task) {
      PostedWaits(s, e, task);
    }
    forall id | id in r.pending ensures EntryTracked(r, id) {
      PostedEntry(s, e, id);
    }
    forall id | id in s.pending ensures EntryTracked(s, id) {
    }
    hide EntryTracked, Waiting;
  }

  /** A timer fires for its own entry: dropping it from the live timers first changes nothing that removal would not. */
  lemma TimerStep(s: Pool, timer: nat)
    requires Tracked(s) && timer in s.timers
    ensures Removed(s, TimerFires(timer)) == {s.timers[timer]}
    ensures Step(s, TimerFires(timer)) == Remove(s, {s.timers[timer]})
  {
    var id := s.timers[timer];
    assert EntryTracked(s, id);
    assert {id} * s.pending.Keys == {id};
  }

  lemma StepKeepsTrack(s: Pool, e: Event)
    requires Tracked(s) && (e.Post? ==> SafePost(s, e))
    ensures Tracked(Step(s, e))
  {
    hide Tracked, Remove;
    match e
    case Post(_, _, _) => SafePostKeepsTrack(s, e);
    case TimerFires(timer) =>
      if timer in s.timers {
        TimerInPending(s, timer);
        TimerStep(s, timer);
        RemoveKeepsTrack(s, {s.timers[timer]});
      } else {
        DeadTimer(s, timer);
      }
    case Acquire =>
      ResolvedInside(s, e);
      OnlyTheRest(s, Step(s, e));
    case _ =>
      RemoveKeepsTrack(s, Removed(s, e));
      ResolvedInside(s, e);
      OnlyTheRest(Remove(s, Removed(s, e)), Step(s, e));
  }

  lemma TimerInPending(s: Pool, timer: nat)
    requires Tracked(s) && timer in s.timers
    ensures s.timers[timer] in s.pending
  {
  }

  lemma DeadTimer(s: Pool, timer: nat)
    requires timer !in s.timers
    ensures Step(s, TimerFires(timer)) == s
  {
    assert s.timers - {timer} == s.timers;
    RemoveNothing(s);
  }

  lemma ResolvedInside(s: Pool, e: Event)
    requires Tracked(s) && !e.Post? && !e.TimerFires?
    ensures var r := Remove(s, Removed(s, e)); Step(s, e).resolved <= r.settled - r.thrown
    ensures e.Acquire? ==> Step(s, e).resolved <= s.settled - s.thrown
  {
    hide EntryTracked, Waiting;
  }

  lemma OnlyTheRest(s: Pool, t: Pool)
    requires Tracked(s)
    requires t == s.(workers := t.workers, nextInstance := t.nextInstance, current := t.current, terminated := t.terminated,
                     resolved := t.resolved)
    requires t.resolved <= s.settled - s.thrown
    ensures Tracked(t)
  {
    forall id | id in t.pending ensures EntryTracked(t, id) {
      assert EntryTracked(s, id);
    }
    forall task | 0 <= task < t.posted ensures task in t.settled || Waiting(t, task) {
      assert task in s.settled || Waiting(s, task);
    }
  }

  /** No post reuses an id that is still pending. */
  ghost predicate NoReuse(start: Pool, events: seq<Event>)
  {
    forall i :: 0 <= i < |events| && events[i].Post? ==>
      TaskId(After(start, events[..i]), events[i]) !in After(start, events[..i]).pending
  }

  /** The id of a post is not pending, or names the timerless entry of a post that threw. */
  ghost predicate SafePost(s: Pool, e: Event)
    requires e.Post?
  {
    TaskId(s, e) !in s.pending || (s.pending[TaskId(s, e)].task in s.thrown && !s.timeouts)
  }

  ghost predicate SafePosts(start: Pool, events: seq<Event>)
  {
    forall i :: 0 <= i < |events| && events[i].Post? ==> SafePost(After(start, events[..i]), events[i])
  }

  lemma SafePostKeepsTrack(s: Pool, e: Event)
    requires Tracked(s) && e.Post? && SafePost(s, e)
    ensures Tracked(Step(s, e))
  {
    hide TaskId, Tracked, Step;
    if TaskId(s, e) in s.pending {
      OverwriteKeepsTrack(s, e);
    } else {
      PostKeepsTrack(s, e);
    }
  }

  lemma PrefixIsSafe(start: Pool, events: seq<Event>, n: nat)
    requires SafePosts(start, events) && n <= |events|
    ensures SafePosts(start, events[..n])
  {
    hide SafePost, After;
    forall i | 0 <= i < n ensures events[..n][..i] == events[..i] {
    }
  }

  /** Over every interleaving of safe posts, no promise is ever lost. */
  lemma {:induction false} RunKeepsTrack(size: nat, timeouts: bool, events: seq<Event>)
    requires SafePosts(Start(size, timeouts), events)
    ensures Tracked(After(Start(size, timeouts), events))
  {
    hide Step, SafePost, TaskId;
    var start := Start(size, timeouts);
    if events != [] {
      var n := |events| - 1;
      PrefixIsSafe(start, events, n);
      hide SafePosts;
      RunKeepsTrack(size, timeouts, events[..n]);
      hide Tracked;
      assert events[n].Post? ==> SafePost(After(start, events[..n]), events[n]) by {
        LastIsSafe(start, events);
      }
      StepKeepsTrack(After(start, events[..n]), events[n]);
    }
  }

  lemma LastIsSafe(start: Pool, events: seq<Event>)
    requires SafePosts(start, events) && events != []
    ensures var n := |events| - 1; events[n].Post? ==> SafePost(After(start, events[..n]), events[n])
  {
    hide SafePost, After;
  }

  /** A run keeps track of all its promises, at every moment, exactly when all its posts are safe. */
  lemma TrackedExactly(size: nat, timeouts: bool, events: seq<Event>)
    ensures (forall k :: 0 <= k <= |events| ==> Tracked(After(Start(size, timeouts), events[..k])))
       <==> SafePosts(Start(size, timeouts), events)
  {
    hide Step, SafePost, TaskId, Tracked, After;
    var start := Start(size, timeouts);
    if SafePosts(start, events) {
      forall k | 0 <= k <= |events| ensures Tracked(After(start, events[..k])) {
        PrefixIsSafe(start, events, k);
        RunKeepsTrack(size, timeouts, events[..k]);
      }
    } else {
      var i :| 0 <= i < |events| && events[i].Post? && !SafePost(After(start, events[..i]), events[i]);
      if Tracked(After(start, events[..i])) {
        ReuseLosesPromise(After(start, events[..i]), events[i]);
        NextAfter(start, events, i);
        assert !Tracked(After(start, events[..i + 1]));
      } else {
        assert 0 <= i <= |events|;
      }
    }
  }

  lemma NextAfter(start: Pool, events: seq<Event>, i: nat)
    requires i < |events|
    ensures After(start, events[..i + 1]) == Step(After(start, events[..i]), events[i])
  {
    hide Step;
    assert events[..i + 1][..i] == events[..i];
  }

  /** An event settles a promise by removing its one entry or, for a post that throws, at once. The entries it removes
      belong to unsettled promises, except those left behind by posts that threw. */
  lemma SettledAtMostOnce(size: nat, timeouts: bool, events: seq<Event>, e: Event)
    requires SafePosts(Start(size, timeouts), events)
    ensures var s := After(Start(size, timeouts), events);
      && Removed(s, e) <= s.pending.Keys
      && (forall id :: id in Removed(s, e) ==> s.pending[id].task in Step(s, e).settled)
      && (forall id :: id in Removed(s, e) ==> (s.pending[id].task in s.settled <==> s.pending[id].task in s.thrown))
      && (forall id, id' :: id in Removed(s, e) && id' in Removed(s, e) && s.pending[id].task == s.pending[id'].task ==> id == id')
      && (forall task :: task in Step(s, e).settled && task !in s.settled ==>
            || (Throws(s, e) && task == s.posted)
            || exists id :: id in Removed(s, e) && s.pending[id].task == task)
  {
    hide TaskId, PoolId;
    RunKeepsTrack(size, timeouts, events);
    var s := After(Start(size, timeouts), events);
    forall id | id in Removed(s, e) ensures EntryTracked(s, id) {
    }
  }

  /** What an event does to the workers, the index and the promise numbers. */
  lemma StepEffects(s: Pool, e: Event)
    ensures var t := Step(s, e);
      && t.terminated == (s.terminated || e == Terminate)
      && |t.workers| == (if e == Terminate then 0 else |s.workers|)
      && t.current == (if e == Terminate then 0
                       else if e == Acquire && s.workers != [] then (s.current + 1) % |s.workers| else s.current)
      && t.posted == s.posted + (if e.Post? then 1 else 0)
      && t.thrown == (if Throws(s, e) then s.thrown + {s.posted} else s.thrown)
  {
    hide TaskId, Removed;
  }

  lemma {:induction false} ThrownBefore(start: Pool, events: seq<Event>)
    requires start.thrown == {}
    ensures forall task :: task in After(start, events).thrown ==> task < After(start, events).posted
  {
    hide Step;
    if events != [] {
      ThrownBefore(start, events[..|events| - 1]);
      StepEffects(After(start, events[..|events| - 1]), events[|events| - 1]);
    }
  }

  /** A promise counts as thrown exactly when its post, the i-th event, threw. */
  lemma {:induction false} ThrownExactly(start: Pool, events: seq<Event>, i: nat)
    requires start.thrown == {} && i < |events| && events[i].Post?
    ensures After(start, events[..i]).posted < After(start, events).posted
    ensures After(start, events[..i]).posted in After(start, events).thrown
       <==> Throws(After(start, events[..i]), events[i])
    decreases |events|
  {
    hide Step;
    var n := |events| - 1;
    StepEffects(After(start, events[..n]), events[n]);
    if i == n {
      ThrownBefore(start, events[..n]);
    } else {
      assert events[..n][..i] == events[..i];
      ThrownExactly(start, events[..n], i);
    }
  }

  /** Promises are resolved by successful replies and by nothing else: whatever another event settles is rejected. */
  lemma ResolvedExactly(s: Pool, e: Event)
    requires Tracked(s)
    ensures Step(s, e).resolved <= Step(s, e).settled - Step(s, e).thrown
    ensures forall task :: task in Step(s, e).resolved && task !in s.resolved <==>
              e.Reply? && e.success && task in Step(s, e).settled && task !in s.settled
  {
    hide TaskId, PoolId, EntryTracked, Waiting;
    if e.TimerFires? {
      RemoveNothing(s);
    }
  }

  /** Instance numbers are handed out in order. */
  ghost predicate InstancesUsed(s: Pool, bound: nat)
  {
    s.nextInstance <= bound && forall i :: 0 <= i < |s.workers| ==> s.workers[i] < bound
  }

  lemma StepInstances(s: Pool, e: Event)
    requires InstancesUsed(s, s.nextInstance)
    ensures s.nextInstance <= Step(s, e).nextInstance && InstancesUsed(Step(s, e), Step(s, e).nextInstance)
  {
    hide TaskId, Removed;
  }

  lemma {:induction false} RunInstances(start: Pool, events: seq<Event>, k: nat)
    requires InstancesUsed(start, start.nextInstance) && k <= |events|
    ensures InstancesUsed(After(start, events), After(start, events).nextInstance)
    ensures InstancesUsed(After(start, events[..k]), After(start, events).nextInstance)
  {
    hide Step;
    if events != [] {
      var n := |events| - 1;
      RunInstances(start, events[..n], if k <= n then k else n);
      StepInstances(After(start, events[..n]), events[n]);
      if k <= n {
        assert events[..n][..k] == events[..k];
      } else {
        assert events[..k] == events;
      }
    } else {
      assert events[..k] == events;
    }
  }

  /** A crash of the worker that is in place, before termination, puts a worker there that was never in the pool before;
      any other crash changes no worker. */
  lemma CrashReplaces(size: nat, timeouts: bool, events: seq<Event>, index: nat, instance: nat)
    ensures var start := Start(size, timeouts);
      var s := After(start, events);
      var t := Step(s, Crash(index, instance));
      if Terminate !in events && index < |s.workers| && s.workers[index] == instance then
        && |t.workers| == |s.workers| && (forall i :: 0 <= i < |s.workers| && i != index ==> t.workers[i] == s.workers[i])
        && forall k :: 0 <= k <= |events| ==> t.workers[index] !in After(start, events[..k]).workers
      else t.workers == s.workers
  {
    hide Removed;
    var start := Start(size, timeouts);
    WorkersStay(size, timeouts, events);
    forall k | 0 <= k <= |events|
      ensures InstancesUsed(After(start, events[..k]), After(start, events).nextInstance)
    {
      RunInstances(start, events, k);
    }
    hide After;
  }

  /** Posts without an id of their own. */
  ghost function Unnamed(events: seq<Event>): nat
  {
    if events == [] then 0
    else
      var last := events[|events| - 1];
      Unnamed(events[..|events| - 1]) + if last.Post? && last.id == None then 1 else 0
  }

  lemma CounterStep(s: Pool, e: Event)
    ensures Step(s, e).idCounter == s.idCounter + if e.Post? && e.id == None then 1 else 0
  {
    hide TaskId, Removed;
  }

  lemma {:induction false} CounterIsUnnamed(size: nat, timeouts: bool, events: seq<Event>)
    ensures After(Start(size, timeouts), events).idCounter == Unnamed(events)
  {
    hide Step;
    if events != [] {
      CounterIsUnnamed(size, timeouts, events[..|events| - 1]);
      CounterStep(After(Start(size, timeouts), events[..|events| - 1]), events[|events| - 1]);
    }
  }

  /** The id under which the i-th event posts: the caller's, or "pool-" and the number of posts without one so far. */
  lemma TaskIdExactly(size: nat, timeouts: bool, events: seq<Event>, i: nat)
    requires i < |events| && events[i].Post?
    ensures TaskId(After(Start(size, timeouts), events[..i]), events[i]) ==
            match events[i].id
            case Some(id) => id
            case None => "pool-" + Amount.ToText(Unnamed(events[..i]) + 1)
  {
    hide After, Unnamed;
    CounterIsUnnamed(size, timeouts, events[..i]);
  }

  lemma {:induction false} WorkersStay(size: nat, timeouts: bool, events: seq<Event>)
    ensures var s := After(Start(size, timeouts), events);
      && |s.workers| == (if s.terminated then 0 else size)
      && (s.terminated <==> Terminate in events)
      && (s.workers == [] || s.current < |s.workers|)
  {
    hide Step;
    if events != [] {
      var n := |events| - 1;
      WorkersStay(size, timeouts, events[..n]);
      StepEffects(After(Start(size, timeouts), events[..n]), events[n]);
      assert events == events[..n] + [events[n]];
    }
  }

  /** A post to a worker that passed the check throws exactly when its payload cannot be cloned or the pool was
      terminated by then. */
  lemma ThrowsWhenTerminated(size: nat, timeouts: bool, events: seq<Event>, i: nat)
    requires i < |events| && events[i].Post? && events[i].worker < size
    ensures var start := Start(size, timeouts);
      After(start, events[..i]).posted in After(start, events).thrown <==> !events[i].cloneable || Terminate in events[..i]
  {
    ThrownExactly(Start(size, timeouts), events, i);
    WorkersStay(size, timeouts, events[..i]);
  }

  ghost function Acquired(events: seq<Event>): nat
  {
    if events == [] then 0
    else Acquired(events[..|events| - 1]) + if events[|events| - 1].Acquire? then 1 else 0
  }

  lemma RunStep(start: Pool, events: seq<Event>)
    requires events != []
    ensures var n := |events| - 1;
      && After(start, events) == Step(After(start, events[..n]), events[n])
      && Acquired(events) == Acquired(events[..n]) + (if events[n].Acquire? then 1 else 0)
      && (Terminate !in events ==> Terminate !in events[..n] && events[n] != Terminate)
  {
    hide Step;
  }

  lemma NextModulo(n: nat, size: nat)
    requires 0 < size
    ensures (n % size + 1) % size == (n + 1) % size
  {
    var q, r := n / size, n % size;
    assert n == q * size + r;
    if r + 1 < size {
      Digits.DivModUnique(q, r + 1, size);
    } else {
      assert (q + 1) * size == q * size + size;
      Digits.DivModUnique(q + 1, 0, size);
      Digits.DivModUnique(1, 0, size);
    }
  }

  /** Until termination the n-th acquisition gets worker n modulo the size, crashes notwithstanding; in every run the
      next index is that of a worker, if there is any. */
  lemma {:induction false} RoundRobin(size: nat, timeouts: bool, events: seq<Event>)
    ensures var s := After(Start(size, timeouts), events);
      && (s.workers == [] || s.current < |s.workers|)
      && (0 < size && Terminate !in events ==> s.current == Acquired(events) % size)
  {
    hide Step;
    WorkersStay(size, timeouts, events);
    if events != [] && 0 < size && Terminate !in events {
      var n := |events| - 1;
      WorkersStay(size, timeouts, events[..n]);
      RoundRobin(size, timeouts, events[..n]);
      RunStep(Start(size, timeouts), events);
      StepEffects(After(Start(size, timeouts), events[..n]), events[n]);
      hide After, Acquired;
      NextModulo(Acquired(events[..n]), size);
    }
  }

  /** While timeouts are on, an unsettled promise has a live timer, and that timer's firing settles it. */
  lemma TimerSettles(size: nat, events: seq<Event>, task: nat)
    requires SafePosts(Start(size, true), events)
    requires task < After(Start(size, true), events).posted && task !in After(Start(size, true), events).settled
    ensures var s := After(Start(size, true), events);
      Waiting(s, task) && task in s.timers && task in Step(s, TimerFires(task)).settled
  {
    var start := Start(size, true);
    RunKeepsTrack(size, true, events);
    TimeoutsStay(start, events);
    var s := After(start, events);
    var id :| id in s.pending && s.pending[id].task == task;
    assert EntryTracked(s, id);
    TimerStep(s, task);
  }

  lemma {:induction false} TimeoutsStay(start: Pool, events: seq<Event>)
    ensures After(start, events).timeouts == start.timeouts
  {
    if events != [] {
      TimeoutsStay(start, events[..|events| - 1]);
    }
  }

  /** Which entries an event can leave behind. */
  lemma EntriesAfter(s: Pool, e: Event)
    ensures var t := Step(s, e);
      && s.posted <= t.posted && (e.Post? ==> s.posted < t.posted)
      && forall id :: id in t.pending ==>
           || (id in s.pending && t.pending[id] == s.pending[id])
           || (e.Post? && t.pending[id].task == s.posted && t.pending[id].worker == e.worker)
  {
    hide TaskId, Removed;
  }

  ghost predicate EntriesArePosted(s: Pool)
  {
    forall id :: id in s.pending ==> s.pending[id].task < s.posted
  }

  /** Entries of this promise are with this worker. */
  ghost predicate StaysWith(s: Pool, task: nat, worker: nat)
  {
    task < s.posted && forall id :: id in s.pending && s.pending[id].task == task ==> s.pending[id].worker == worker
  }

  lemma EntriesStep(s: Pool, e: Event, task: nat, worker: nat)
    ensures EntriesArePosted(s) ==> EntriesArePosted(Step(s, e))
    ensures StaysWith(s, task, worker) ==> StaysWith(Step(s, e), task, worker)
    ensures EntriesArePosted(s) && e.Post? ==> StaysWith(Step(s, e), s.posted, e.worker)
  {
    hide Step;
    EntriesAfter(s, e);
  }

  lemma {:induction false} RunEntriesArePosted(start: Pool, events: seq<Event>)
    requires EntriesArePosted(start)
    ensures EntriesArePosted(After(start, events))
  {
    hide Step, EntriesArePosted;
    if events != [] {
      var n := |events| - 1;
      RunEntriesArePosted(start, events[..n]);
      EntriesStep(After(start, events[..n]), events[n], 0, 0);
    }
  }

  /** An entry stays with the worker its promise was posted to, by the i-th event. */
  lemma {:induction false} EntryWorker(start: Pool, events: seq<Event>, i: nat)
    requires EntriesArePosted(start) && i < |events| && events[i].Post?
    ensures StaysWith(After(start, events), After(start, events[..i]).posted, events[i].worker)
    decreases |events|
  {
    hide Step, StaysWith, EntriesArePosted;
    var n := |events| - 1;
    var task := After(start, events[..i]).posted;
    if i == n {
      RunEntriesArePosted(start, events[..n]);
    } else {
      assert events[..n][..i] == events[..i];
      EntryWorker(start, events[..n], i);
    }
    EntriesStep(After(start, events[..n]), events[n], task, events[i].worker);
  }

  /** A crash settles, of all promises of the run, exactly those posted to the crashed worker that were not settled yet. */
  lemma CrashSettlesWorker(size: nat, timeouts: bool, events: seq<Event>, index: nat, instance: nat, i: nat)
    requires SafePosts(Start(size, timeouts), events) && i < |events| && events[i].Post?
    ensures var start := Start(size, timeouts);
      var task, s := After(start, events[..i]).posted, After(start, events);
      task in Step(s, Crash(index, instance)).settled <==> task in s.settled || events[i].worker == index
  {
    var start := Start(size, timeouts);
    var task, s := After(start, events[..i]).posted, After(start, events);
    RunKeepsTrack(size, timeouts, events);
    EntryWorker(start, events, i);
    hide After;
    assert task in s.settled || Waiting(s, task);
    CrashStep(s, index, instance);
  }

  /** The entries of the crashed worker go, the others stay, and the pool keeps its size. */
  lemma CrashStep(s: Pool, index: nat, instance: nat)
    ensures var r := Step(s, Crash(index, instance));
      && (forall id :: id in r.pending <==> id in s.pending && s.pending[id].worker != index)
      && (forall id :: id in r.pending ==> r.pending[id] == s.pending[id])
      && |r.workers| == |s.workers|
    ensures forall task :: task in Step(s, Crash(index, instance)).settled <==>
              task in s.settled || exists id :: id in s.pending && s.pending[id].worker == index && s.pending[id].task == task
  {
  }

  /** Termination leaves nothing posted before it unsettled, no entry and no timer. */
  lemma TerminateSettlesAll(size: nat, timeouts: bool, events: seq<Event>)
    requires SafePosts(Start(size, timeouts), events)
    ensures var s := After(Start(size, timeouts), events + [Terminate]);
      && s.pending == map[] && s.timers == map[]
      && forall task :: 0 <= task < s.posted ==> task in s.settled
  {
    var start := Start(size, timeouts);
    RunKeepsTrack(size, timeouts, events);
    assert (events + [Terminate])[..|events|] == events;
    var s, t := After(start, events), After(start, events + [Terminate]);
    StepKeepsTrack(s, Terminate);
    NothingWaiting(t);
  }

  lemma NothingWaiting(s: Pool)
    requires Tracked(s) && s.pending == map[]
    ensures s.timers == map[] && forall task :: 0 <= task < s.posted ==> task in s.settled
  {
    forall task: nat ensures !Waiting(s, task) {
    }
  }

  // ---------------------------------------------------------------------- ids --

  lemma PoolIdInjective(m: nat, n: nat)
    requires PoolId(m) == PoolId(n)
    ensures m == n
  {
    assert PoolId(m)[5..] == Amount.ToText(m) && PoolId(n)[5..] == Amount.ToText(n);
    Amount.TextOfNat(m);
    Amount.TextOfNat(n);
    Amount.BigIntOfDigits(Amount.DecimalDigits(m));
    Amount.BigIntOfDigits(Amount.DecimalDigits(n));
  }

  ghost predicate GeneratedUpTo(id: string, counter: nat)
  {
    exists n: nat :: n <= counter && id == PoolId(n)
  }

  /** Pending ids were generated by the counter. */
  ghost predicate Generated(s: Pool)
  {
    forall id :: id in s.pending ==> GeneratedUpTo(id, s.idCounter)
  }

  lemma StepGenerated(s: Pool, e: Event)
    requires Generated(s) && (e.Post? ==> e.id == None)
    ensures Generated(Step(s, e))
  {
    hide PoolId;
    var t := Step(s, e);
    forall id | id in t.pending ensures GeneratedUpTo(id, t.idCounter) {
      if id in s.pending {
        var n: nat :| n <= s.idCounter && id == PoolId(n);
        assert n <= t.idCounter;
      } else {
        assert id == PoolId(s.idCounter + 1) && s.idCounter + 1 == t.idCounter;
      }
    }
  }

  lemma {:induction false} PoolIdsGenerated(start: Pool, events: seq<Event>)
    requires start.pending == map[] && forall i :: 0 <= i < |events| && events[i].Post? ==> events[i].id == None
    ensures Generated(After(start, events))
  {
    hide Step, GeneratedUpTo;
    if events != [] {
      PoolIdsGenerated(start, events[..|events| - 1]);
      StepGenerated(After(start, events[..|events| - 1]), events[|events| - 1]);
    }
  }

  lemma NextIdIsNew(s: Pool)
    requires Generated(s)
    ensures PoolId(s.idCounter + 1) !in s.pending
  {
    hide PoolId;
    if PoolId(s.idCounter + 1) in s.pending {
      assert GeneratedUpTo(PoolId(s.idCounter + 1), s.idCounter);
      var n: nat :| n <= s.idCounter && PoolId(s.idCounter + 1) == PoolId(n);
      PoolIdInjective(n, s.idCounter + 1);
    }
  }

  /** When every id comes from the pool, none is reused. */
  lemma PoolIdsAreNotReused(size: nat, timeouts: bool, events: seq<Event>)
    requires forall i :: 0 <= i < |events| && events[i].Post? ==> events[i].id == None
    ensures NoReuse(Start(size, timeouts), events) && SafePosts(Start(size, timeouts), events)
  {
    hide PoolId, Generated, After;
    var start := Start(size, timeouts);
    forall i | 0 <= i < |events| && events[i].Post?
      ensures TaskId(After(start, events[..i]), events[i]) !in After(start, events[..i]).pending
    {
      PoolIdsGenerated(start, events[..i]);
      NextIdIsNew(After(start, events[..i]));
    }
  }

  /** A caller-chosen id is safe exactly when it is not pending, or names the timerless entry of a post that threw:
      otherwise the promise it belonged to is lost, or left to its timer, which then rejects the new one. */
  lemma ReuseLosesPromise(s: Pool, e: Event)
    requires Tracked(s) && e.Post?
    ensures Tracked(Step(s, e)) <==> SafePost(s, e)
  {
    hide TaskId;
    if TaskId(s, e) !in s.pending {
      PostKeepsTrack(s, e);
    } else {
      var t := Step(s, e);
      var task := s.pending[TaskId(s, e)].task;
      assert EntryTracked(s, TaskId(s, e));
      if task in s.thrown && !s.timeouts {
        OverwriteKeepsTrack(s, e);
      } else if task in s.thrown {
        assert task in t.timers && t.timers[task] == TaskId(s, e) && t.pending[TaskId(s, e)].task != task;
      } else {
        forall id | id in t.pending ensures t.pending[id].task != task {
          if id != TaskId(s, e) {
            assert t.pending[id] == s.pending[id];
          }
        }
        assert !Waiting(t, task) && task !in t.settled;
      }
    }
  }

  /** Posting over a timerless entry of a settled promise is posting after its removal. */
  lemma OverwriteIsRemoval(s: Pool, e: Event)
    requires e.Post? && TaskId(s, e) in s.pending && !s.timeouts
    requires s.pending[TaskId(s, e)].task in s.settled && s.pending[TaskId(s, e)].timer == None
    ensures var free := Remove(s, {TaskId(s, e)});
      TaskId(free, e) == TaskId(s, e) && Step(free, e) == Step(s, e)
  {
    var id := TaskId(s, e);
    var free := Remove(s, {id});
    SameTaskId(s, free, e);
    hide TaskId;
    assert free.settled == s.settled;
    assert free.timers == s.timers;
  }

  lemma OverwriteKeepsTrack(s: Pool, e: Event)
    requires Tracked(s) && e.Post? && TaskId(s, e) in s.pending && !s.timeouts
    requires s.pending[TaskId(s, e)].task in s.thrown
    ensures Tracked(Step(s, e))
  {
    var id := TaskId(s, e);
    assert EntryTracked(s, id);
    RemoveKeepsTrack(s, {id});
    OverwriteIsRemoval(s, e);
    assert id !in Remove(s, {id}).pending;
    hide TaskId, Tracked, Remove, Step;
    PostKeepsTrack(Remove(s, {id}), e);
  }

  lemma SameTaskId(s: Pool, t: Pool, e: Event)
    requires e.Post? && s.idCounter == t.idCounter
    ensures TaskId(s, e) == TaskId(t, e)
  {
    hide PoolId;
  }
}
