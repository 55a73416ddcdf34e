/** The scheduler and the calls of processes on each other (kernel/scheduler.c,
    kernel/process.c, kernel/syscall/process.c). Every method is one stretch of
    kernel code with interrupts off; processes run between them, and a process
    inside waitpid is one whose `call` is not NoCall. */
module Scheduler {
  import opened Processes
  import opened Signals
  import opened Waking

  datatype Table = Table(of: Procs)

  /** What waitpid returns: a pid with its exit status, or an error. */
  datatype WaitResult = Child(pid: int, status: int) | NoSuchChild | WasInterrupted

  class Scheduler {
    const idle: int
    var procs: Table
    var all: seq<int>
    var ready: seq<int>
    var current: int
    var nextPid: int
    var nextId: int
    /** Every process that was ever taken out of all_processes. */
    ghost var reaped: set<int>

    /** In order while cur runs; cur == idle also stands for the moments when nobody does. */
    ghost predicate Consistent(cur: int)
      reads this
    {
      && Inv(procs.of, all, ready, cur, idle, nextPid, nextId)
      && forall z :: z in reaped ==> z < nextId && z !in all
    }

    ghost predicate Valid()
      reads this
    {
      Consistent(current)
    }

    twostate predicate Moved(switched: bool)
      reads this
    {
      QueueStep(Queue(old(ready), old(current)), Queue(ready, current), switched)
    }

    /** Nobody else changes what an awake process has in its call. */
    twostate predicate CallsKept()
      reads this
    {
      KeptCalls(old(procs).of, procs.of, old(current))
    }

    twostate predicate ReapsOnce()
      reads this
    {
      Reaping(old(procs).of, old(all), old(reaped), procs.of, all, reaped)
    }

    /** After boot: init runs, pid 1, its own parent since the boot process died. */
    constructor ()
      ensures Valid()
    {
      idle := 0;
      procs := Table(map[0 := Process(0, 0, 0, Runnable, NoBlocker, NoCall, {}, 0),
                         1 := Process(1, 1, 1, Running, NoBlocker, NoCall, {}, 0)]);
      all, ready, current, nextPid, nextId, reaped := [1], [], 1, 2, 2, {};
      new;
      assert HasParent(procs.of, all, 1) by { assert 1 in all && 1 in procs.of; }
    }

    method Enqueue(id: int)
      modifies this`ready
      ensures ready == old(ready) + [id]
    {
      ready := ready + [id];
    }

    /** waitpid_should_unblock for the call of process id: takes the first dead target
        out of the list; true also if there is no target at all. */
    method WaitShouldUnblock(id: int) returns (r: bool, ghost j: nat)
      requires id in procs.of && procs.of[id].call.Wait? && Listed(procs.of, all, nextPid, nextId)
      modifies this`procs, this`all, this`reaped
      ensures j == FirstZombie(old(procs).of, old(all), old(procs).of[id].call)
      ensures r <==> j < |old(all)| || !AnyTarget(old(procs).of, old(all), old(procs).of[id].call)
      ensures j == |old(all)| ==> procs == old(procs) && all == old(all) && reaped == old(reaped)
      ensures j < |old(all)| ==>
                && all == Without(old(all), j) && reaped == old(reaped) + {old(all)[j]}
                && procs == Table(old(procs).of[id := old(procs).of[id].(call :=
                        old(procs).of[id].call.(waited := Some(old(all)[j])))])
    {
      var c := procs.of[id].call;
      var i, any := 0, false;
      while i < |all| && !(IsTarget(c, procs.of[all[i]]) && procs.of[all[i]].state.Dead?)
        invariant 0 <= i <= |all|
        invariant forall k :: 0 <= k < i ==> !(IsTarget(c, procs.of[all[k]]) && procs.of[all[k]].state.Dead?)
        invariant any <==> exists k :: 0 <= k < i && IsTarget(c, procs.of[all[k]])
      {
        any := any || IsTarget(c, procs.of[all[i]]);
        i := i + 1;
      }
      j := FirstZombie(procs.of, all, c);
      assert j == i;
      if i == |all| { return !any, j; }
      var z := all[i];
      procs := Table(procs.of[id := procs.of[id].(call := c.(waited := Some(z)))]);
      all := Without(all, i);
      reaped := reaped + {z};
      r := true;
    }

    /** The body of the loop of unblock_processes, for a blocked process. A pending
        signal wakes it without asking its predicate, so an interrupted wait takes
        nothing out of the list. */
    method TryUnblock(id: int, awake: set<int>)
      requires Consistent(idle) && id in all && procs.of[id].state.Blocked?
      modifies this`procs, this`all, this`reaped, this`ready
      ensures Consistent(idle) && ReapsOnce()
      ensures ready == old(ready) + if Unblocks(old(procs).of, old(all), id, awake) then [id] else []
      ensures if Unblocks(old(procs).of, old(all), id, awake)
              then procs.of == old(procs).of[id := procs.of[id]]
                   && Step(old(procs).of, old(all), procs.of[id], all, id, awake)
              else procs == old(procs) && all == old(all)
      ensures all == old(all) || exists j :: 0 <= j < |old(all)| && all == Without(old(all), j) && old(all)[j] != id
      ensures old(procs).of[id].signals != {} ==> all == old(all)
      ensures forall z :: z in old(procs).of ==> z in procs.of
    {
      hide Inv, Listed, Reaping, FirstZombie, AnyTarget, Without, Step;
      ghost var procs0, all0 := procs.of, all;
      AllListed(procs0, all0, ready, idle, idle, nextPid, nextId, reaped);
      BlockedFacts(procs0, all0, ready, idle, idle, nextPid, nextId, id);
      var p := procs.of[id];
      ghost var q0 := Awoken(p);
      Woken(procs0, all0, ready, idle, idle, nextPid, nextId, id, q0);
      ghost var j: nat := |all|;
      if p.signals == {} {
        var hit;
        if p.blocker.OnWait? {
          hit, j := WaitShouldUnblock(id);
        } else {
          hit := id in awake;
        }
        if !hit { return; }
      }
      var q := Awoken(procs.of[id]);
      procs := Table(procs.of[id := q]);
      Enqueue(id);
      if j < |all0| {
        ZombieIs(procs0, all0, p.call);
        Collected(procs0[id := q0], all0, ready, idle, idle, nextPid, nextId, id, j, q);
        ReapingOne(procs0, all0, old(reaped), id, q, j, all);
        assert procs.of == procs0[id := q0][id := q] == procs0[id := q];
      } else {
        assert procs.of == procs0[id := q0];
        ReapingSet(procs0, all0, reaped, procs0, all0, reaped, id, q0);
      }
      StepIs(procs0, all0, q, all, id, awake, j);
    }

    /** One round of the loop of unblock_processes, for the process at index i: it is at index k
        afterwards, as an entry before it may have been taken out of the list. */
    method LookAt(i: nat, awake: set<int>) returns (k: nat)
      requires Consistent(idle) && i < |all| && all[i] in procs.of
      modifies this`procs, this`all, this`reaped, this`ready
      ensures Consistent(idle) && ReapsOnce() && k < |all| && all[k] == old(all[i]) && all[k] in procs.of
      ensures |all| - k <= |old(all)| - i
      ensures var id := all[k];
              if Wakeable(old(procs).of, old(all), id, awake) then
                && ready == old(ready) + [id] && procs.of == old(procs).of[id := procs.of[id]]
                && Step(old(procs).of, old(all), procs.of[id], all, id, awake)
              else ready == old(ready) && procs == old(procs) && all == old(all)
    {
      hide Inv, Reaping, Step, Wakeable, Unblocks, Without;
      var it := all[i];
      k := i;
      AllListed(procs.of, all, ready, idle, idle, nextPid, nextId, reaped);
      BlockedFacts(procs.of, all, ready, idle, idle, nextPid, nextId, it);
      if !procs.of[it].state.Blocked? {
        NotAsleep(procs.of, all, it, awake);
        return;
      }
      UnblocksIs(procs.of, all, it, awake);
      ghost var before, table := all, procs.of;
      TryUnblock(it, awake);
      assert it in procs.of;
      if all != before {
        ghost var j :| 0 <= j < |before| && all == Without(before, j) && before[j] != it;
        WithoutAt(table, before, nextPid, nextId, j, i);
        WithoutLess(before, j);
      }
      if i >= |all| || all[i] != it { k := i - 1; }
    }

    /** unblock_processes: walks the list while entries disappear from it; the walk goes
        on behind the process it is at. It wakes every blocked process that has a reason to be
        woken, in the order of the list, and nobody else changes. */
    method UnblockProcesses(awake: set<int>)
      requires Consistent(idle)
      modifies this`procs, this`all, this`reaped, this`ready
      ensures Consistent(idle) && ReapsOnce() && old(ready) <= ready
      ensures WokenUp(old(procs).of, old(all), procs.of, all, ready[|old(ready)|..], awake)
      ensures Settled(procs.of, all, Ids(all), awake)
    {
      hide Inv, Reaping, WokenUp, Settled, WalkedTo, Passed, Step, Ids, Wakeable, Listed, UpTo;
      AllListed(procs.of, all, ready, idle, idle, nextPid, nextId, reaped);
      CurrentFacts(procs.of, all, ready, idle, idle, nextPid, nextId);
      ListedIn(procs.of, all, nextPid, nextId);
      var i := 0;
      ghost var woken: seq<int> := [];
      ghost var last := WalkStarts(procs.of, all, nextPid, nextId);
      NobodyWoken(procs.of, all, awake);
      while i < |all|
        invariant i >= 0 && Consistent(idle) && ReapsOnce() && ready == old(ready) + woken
        invariant idle in procs.of
        invariant Walking(old(procs).of, old(all), procs.of, all, woken, awake, i, last)
        invariant Listed(procs.of, all, nextPid, nextId)
        decreases |all| - i
      {
        ghost var before, table, gone, at := all, procs.of, reaped, i;
        ListedIn(table, before, nextPid, nextId);
        ListShrinks(old(procs).of, old(all), old(reaped), table, before, gone);
        var k := LookAt(i, awake);
        ReapingThen(old(procs).of, old(all), old(reaped), table, before, gone, procs.of, all, reaped);
        CurrentFacts(procs.of, all, ready, idle, idle, nextPid, nextId);
        WalkStep(old(procs).of, old(all), table, before, woken, awake, at, last, procs.of, all, k, nextPid, nextId);
        if Wakeable(table, before, all[k], awake) { woken := woken + [all[k]]; }
        last := table[all[k]].pid;
        i := k + 1;
      }
      ListedIn(procs.of, all, nextPid, nextId);
      WalkEnds(procs.of, all, i, last);
      AllListed(procs.of, all, ready, idle, idle, nextPid, nextId, reaped);
      NotAsleep(procs.of, all, idle, awake);
      SettledLess(procs.of, all, Passed(procs.of, all, last), awake, idle, Ids(all));
    }

    /** scheduler_deque */
    method Deque() returns (id: int)
      modifies this`ready
      ensures if old(ready) == [] then id == idle && ready == [] else id == old(ready)[0] && ready == old(ready)[1..]
    {
      if ready == [] { return idle; }
      id := ready[0];
      ready := ready[1..];
    }

    /** process_handle_pending_signals: every signal that is ever pending terminates. */
    method HandlePendingSignals()
      requires Valid()
      modifies this`procs
      ensures Valid() && current in old(procs).of && current in procs.of
      ensures SameRole(old(procs).of[current], procs.of[current])
              && procs.of == old(procs).of[current := procs.of[current]]
      ensures if old(procs).of[current].signals == {} then procs == old(procs)
              else Doomed(old(procs).of[current], procs.of[current])
      ensures old(procs).of[current].signals != {} ==>
                procs.of[current].state.Dying? && procs.of[current].signals == {}
    {
      hide Inv, HandledTo, Doomed;
      CurrentFacts(procs.of, all, ready, current, idle, nextPid, nextId);
      ghost var p0 := procs.of[current];
      assert procs.of == procs.of[current := procs.of[current]];
      while procs.of[current].signals != {}
        invariant Consistent(current) && current in procs.of && Queueable(procs.of[current].state)
        invariant SameRole(old(procs).of[current], procs.of[current])
                  && procs.of == old(procs).of[current := procs.of[current]]
        invariant procs == old(procs) || exists last :: HandledTo(p0, procs.of[current], last)
        invariant p0.signals == {} ==> procs == old(procs)
        decreases procs.of[current].signals
      {
        CurrentFacts(procs.of, all, ready, current, idle, nextPid, nextId);
        var p := procs.of[current];
        ghost var least := HasLeast(p.signals);
        var b :| b in p.signals && forall x :: x in p.signals ==> b <= x;
        var q := p.(signals := p.signals - {b}, state := Dying, status := b % 256);
        Restated(procs.of, all, ready, current, idle, nextPid, nextId, current, q);
        HandledNext(p0, p, b);
        procs := Table(procs.of[current := q]);
      }
      HandledAll(p0, procs.of[current]);
    }

    /** switch_to_next_process */
    method Switch(awake: set<int>)
      requires Consistent(idle)
      modifies this`procs, this`all, this`reaped, this`ready, this`current
      ensures Valid() && ReapsOnce() && Moved(true)
      ensures forall z :: z in old(procs).of ==> z in procs.of
      ensures current in procs.of && (procs.of[current].state.Running? || procs.of[current].state.Dying?)
      ensures Switched(old(procs).of, old(all), old(ready), procs.of, all, ready, current, idle, awake)
    {
      hide Inv, Reaping, WokenUp, Settled, Switched, Ids, Doomed;
      UnblockProcesses(awake);
      WokenPids(old(procs).of, old(all), procs.of, all, ready[|old(ready)|..], awake);
      ghost var queue, woken := ready, ready[|old(ready)|..];
      assert queue == old(ready) + woken;
      assert forall z :: z in old(procs).of ==> z in procs.of.Keys;
      if queue != [] { Dispatched(procs.of, all, ready, idle, nextPid, nextId); }
      current := Deque();
      ghost var mid := procs.of;
      CurrentFacts(procs.of, all, ready, current, idle, nextPid, nextId);
      HandlePendingSignals();
      ReapingSet(old(procs).of, old(all), old(reaped), mid, all, reaped, current, procs.of[current]);
      CurrentFacts(procs.of, all, ready, current, idle, nextPid, nextId);
      if procs.of[current].state.Runnable? {
        var q := procs.of[current].(state := Running);
        Restated(procs.of, all, ready, current, idle, nextPid, nextId, current, q);
        ReapingSet(old(procs).of, old(all), old(reaped), procs.of, all, reaped, current, q);
        procs := Table(procs.of[current := q]);
      }
      assert procs.of == mid[current := procs.of[current]];
      SwitchedIs(old(procs).of, old(all), old(ready), mid, all, woken, procs.of[current], ready, current, idle, awake);
    }

    /** scheduler_yield: the running process goes to the end of the queue, or nowhere if
        it is idle. */
    method Yield(awake: set<int>)
      requires Valid()
      modifies this`procs, this`all, this`reaped, this`ready, this`current
      ensures Valid() && ReapsOnce() && Moved(true)
      ensures old(current) != idle && old(ready) == [] ==> current == old(current)
      ensures old(current) != idle ==>
                current == (old(ready) + [old(current)])[0] && (old(ready) + [old(current)])[1..] <= ready
      ensures idle in old(procs).of && KeptCalls(old(procs).of, procs.of, idle)
      ensures var table := if old(current) != idle then old(procs).of
                           else old(procs).of[idle := old(procs).of[idle].(state := Runnable)];
              var queue := if old(current) == idle then old(ready) else old(ready) + [old(current)];
              Switched(table, old(all), queue, procs.of, all, ready, current, idle, awake)
    {
      hide Inv, Reaping, Switched, KeptCalls;
      CurrentFacts(procs.of, all, ready, current, idle, nextPid, nextId);
      AllListed(procs.of, all, ready, current, idle, nextPid, nextId, reaped);
      if current == idle {
        ghost var q := procs.of[idle].(state := Runnable);
        Restated(procs.of, all, ready, current, idle, nextPid, nextId, idle, q);
        ReapingSet(procs.of, all, reaped, procs.of, all, reaped, idle, q);
        procs := Table(procs.of[idle := procs.of[idle].(state := Runnable)]);
      } else {
        Requeued(procs.of, all, ready, current, idle, nextPid, nextId);
        Enqueue(current);
      }
      ghost var table, queue := procs.of, ready;
      Switch(awake);
      ReapingThen(old(procs).of, old(all), old(reaped), table, old(all), old(reaped), procs.of, all, reaped);
      SwitchedCalls(table, old(all), queue, procs.of, all, ready, current, idle, awake);
      CallsSet(old(procs).of, idle, table[idle]);
      CallsThen(old(procs).of, table, procs.of, idle);
    }

    /** scheduler_block for any condition but that of waitpid; `now` is what the
        predicate says right away. If it is false, the caller sleeps on exactly if no signal is
        pending and the predicate stays false in the switch. */
    method Block(now: bool, awake: set<int>)
      requires Valid() && current != idle && current in procs.of && procs.of[current].call.NoCall?
      modifies this`procs, this`all, this`reaped, this`ready, this`current
      ensures Valid() && ReapsOnce() && Moved(!now) && CallsKept()
      ensures now ==> procs == old(procs) && all == old(all)
      ensures old(current) in old(procs).of && old(current) in procs.of
      ensures !now ==>
                var c := old(current);
                var p := old(procs).of[c].(state := Blocked, blocker := OnOther);
                && Switched(old(procs).of[c := p], old(all), old(ready), procs.of, all, ready, current, idle, awake)
                && if p.signals == {} && c !in awake then procs.of[c] == p && c != current && c !in ready
                   else !procs.of[c].state.Blocked? && (c == current || c in ready)
    {
      hide Inv, Reaping, Switched, KeptCalls;
      CurrentFacts(procs.of, all, ready, current, idle, nextPid, nextId);
      AllListed(procs.of, all, ready, current, idle, nextPid, nextId, reaped);
      if now {
        CallsSame(procs.of, current);
        return;
      }
      StopFor(OnOther);
      ghost var table, c := procs.of, current;
      NotQueued(table, all, ready, idle, idle, nextPid, nextId, c);
      Switch(awake);
      ReapingThen(old(procs).of, old(all), old(reaped), table, old(all), old(reaped), procs.of, all, reaped);
      StillListed(table, old(all), old(reaped), procs.of, all, reaped, c);
      Sleeper(table, old(all), old(ready), procs.of, all, ready, current, idle, awake, c);
      if procs.of[c].state.Blocked? { NotQueued(procs.of, all, ready, current, idle, nextPid, nextId, c); }
      SwitchedCalls(table, old(all), old(ready), procs.of, all, ready, current, idle, awake);
      CallsSet(old(procs).of, c, table[c]);
      CallsThen(old(procs).of, table, procs.of, c);
    }

    /** current->state = PROCESS_STATE_BLOCKED and so on. */
    method StopFor(b: Blocker)
      requires Valid() && current != idle && current in procs.of && !b.NoBlocker?
      requires if b.OnWait? then procs.of[current].call.Wait? && procs.of[current].call.waited.None?
               else procs.of[current].call.NoCall?
      modifies this`procs
      ensures Consistent(idle) && Reaping(old(procs).of, all, reaped, procs.of, all, reaped)
      ensures current in old(procs).of && current in all
      ensures procs.of == old(procs).of[current := old(procs).of[current].(state := Blocked, blocker := b)]
    {
      hide Inv, Reaping;
      CurrentFacts(procs.of, all, ready, current, idle, nextPid, nextId);
      AllListed(procs.of, all, ready, current, idle, nextPid, nextId, reaped);
      var q := procs.of[current].(state := Blocked, blocker := b);
      Stopped(procs.of, all, ready, current, idle, nextPid, nextId, q);
      ReapingSet(procs.of, all, reaped, procs.of, all, reaped, current, q);
      procs := Table(procs.of[current := q]);
    }

    // ----- waitpid -----

    /** The first part of waitpid without WNOHANG: it returns with an answer in hand exactly if a
        target is dead or there is no target, and otherwise blocks until TryUnblock has put one
        there. */
    method WaitStart(param: int, awake: set<int>)
      requires Valid() && current != idle && current in procs.of && procs.of[current].call.NoCall?
      modifies this`procs, this`all, this`reaped, this`ready, this`current
      ensures Valid() && ReapsOnce() && current in procs.of && old(current) in old(procs).of && CallsKept()
      ensures old(current) in procs.of
      ensures var p, me := old(procs).of[old(current)], old(current);
              var c, t := Wait(param, p.pid, p.pgid, None, false), old(procs).of;
              if HasZombie(t, old(all), c) || NoTarget(t, old(all), c) then
                && Moved(false) && procs.of[current].call.Wait?
                && Collects(t, old(all), me, c, procs.of, all)
                && (procs.of[current].call.waited.Some? <==> HasZombie(t, old(all), c))
              else
                var q := p.(call := c, state := Blocked, blocker := OnWait);
                && Moved(true)
                && Switched(t[me := q], old(all), old(ready), procs.of, all, ready, current, idle, awake)
                && if p.signals == {} then procs.of[me] == q && me != current && me !in ready
                   else procs.of[me].call == c.(interrupted := true) && (me == current || me in ready)
    {
      hide Inv, Reaping, Switched, KeptCalls, Collects, HasZombie, NoTarget, Listed, FirstZombie, Queueable;
      OpenCall(param);
      ghost var table, me := procs.of, current;
      SameTargets(old(procs).of, table, all, table[current].call);
      CurrentFacts(procs.of, all, ready, current, idle, nextPid, nextId);
      var r := CheckWait();
      CurrentFacts(procs.of, all, ready, current, idle, nextPid, nextId);
      ReapingThen(old(procs).of, old(all), old(reaped), table, old(all), old(reaped), procs.of, all, reaped);
      CallsSet(old(procs).of, me, table[me]);
      CallsSet(table, me, procs.of[me]);
      CallsThen(old(procs).of, table, procs.of, me);
      CollectsFrom(old(procs).of, table, old(all), me, table[me].call, procs.of, all);
      if r { return; }
      assert table[me := table[me].(state := Blocked, blocker := OnWait)]
          == old(procs).of[me := old(procs).of[me].(call := table[me].call, state := Blocked, blocker := OnWait)];
      WaitSleep(awake);
      ReapingThen(old(procs).of, old(all), old(reaped), table, old(all), old(reaped), procs.of, all, reaped);
      CallsThen(old(procs).of, table, procs.of, me);
    }

    /** scheduler_block in waitpid, once its predicate has said no: only a signal that is pending
        already wakes the caller in the same switch. */
    method WaitSleep(awake: set<int>)
      requires Valid() && current != idle && current in procs.of && procs.of[current].call.Wait?
      requires procs.of[current].call.waited.None?
      requires !HasZombie(procs.of, all, procs.of[current].call) && !NoTarget(procs.of, all, procs.of[current].call)
      modifies this`procs, this`all, this`reaped, this`ready, this`current
      ensures Valid() && ReapsOnce() && Moved(true) && CallsKept()
      ensures current in procs.of && old(current) in procs.of
      ensures var me := old(current);
              var q := old(procs).of[me].(state := Blocked, blocker := OnWait);
              && Switched(old(procs).of[me := q], old(all), old(ready), procs.of, all, ready, current, idle, awake)
              && if q.signals == {} then procs.of[me] == q && me != current && me !in ready
                 else procs.of[me].call == q.call.(interrupted := true) && (me == current || me in ready)
    {
      hide Inv, Reaping, Switched, KeptCalls, HasZombie, NoTarget;
      ghost var me := current;
      CurrentFacts(procs.of, all, ready, current, idle, nextPid, nextId);
      StopFor(OnWait);
      ghost var stopped := procs.of;
      CallsSet(old(procs).of, me, stopped[me]);
      WaiterStops(old(procs).of, stopped, all, me);
      NotQueued(stopped, all, ready, idle, idle, nextPid, nextId, me);
      Switch(awake);
      StillListed(stopped, old(all), old(reaped), procs.of, all, reaped, me);
      Waiter(stopped, old(all), old(reaped), old(ready), procs.of, all, reaped, ready, current, idle, awake, me);
      if procs.of[me] == stopped[me] { NotQueued(procs.of, all, ready, current, idle, nextPid, nextId, me); }
      ReapingThen(old(procs).of, old(all), old(reaped), stopped, old(all), old(reaped), procs.of, all, reaped);
      SwitchedCalls(stopped, old(all), old(ready), procs.of, all, ready, current, idle, awake);
      CallsThen(old(procs).of, stopped, procs.of, me);
    }

    /** The blocker on the stack of waitpid. */
    method OpenCall(param: int)
      requires Valid() && current != idle && current in procs.of && procs.of[current].call.NoCall?
      modifies this`procs
      ensures Valid() && current in procs.of && Reaping(old(procs).of, all, reaped, procs.of, all, reaped)
      ensures current in old(procs).of
      ensures var p := old(procs).of[current];
              procs.of == old(procs).of[current := p.(call := Wait(param, p.pid, p.pgid, None, false))]
    {
      hide Inv, Reaping;
      CurrentFacts(procs.of, all, ready, current, idle, nextPid, nextId);
      AllListed(procs.of, all, ready, current, idle, nextPid, nextId, reaped);
      var p := procs.of[current];
      var q := p.(call := Wait(param, p.pid, p.pgid, None, false));
      Restated(procs.of, all, ready, current, idle, nextPid, nextId, current, q);
      ReapingSet(procs.of, all, reaped, procs.of, all, reaped, current, q);
      procs := Table(procs.of[current := q]);
    }

    /** The predicate, evaluated by the caller itself. */
    method CheckWait() returns (r: bool)
      requires Valid() && current != idle && current in procs.of && procs.of[current].call.Wait?
      requires procs.of[current].call.waited.None? && !procs.of[current].call.interrupted
      modifies this`procs, this`all, this`reaped
      ensures Valid() && ReapsOnce() && current in procs.of
      ensures !r ==> procs == old(procs) && all == old(all) && reaped == old(reaped)
      ensures Collects(old(procs).of, old(all), current, old(procs).of[current].call, procs.of, all)
      ensures procs.of == old(procs).of[current := procs.of[current]]
      ensures var c := old(procs).of[current].call;
              && procs.of[current].call.Wait? && procs.of[current].call == c.(waited := procs.of[current].call.waited)
              && (procs.of[current].call.waited.Some? <==> HasZombie(old(procs).of, old(all), c))
              && (r <==> procs.of[current].call.waited.Some? || NoTarget(old(procs).of, old(all), c))
    {
      hide Inv, Reaping, NoTarget, HasZombie, AnyTarget, Without, Listed;
      ghost var procs0, all0, reaped0 := procs.of, all, reaped;
      CurrentFacts(procs0, all0, ready, current, idle, nextPid, nextId);
      AllListed(procs0, all0, ready, current, idle, nextPid, nextId, reaped0);
      FirstIsZombie(procs0, all0, procs0[current].call);
      ghost var j;
      r, j := WaitShouldUnblock(current);
      if j < |all0| {
        Collected(procs0, all0, ready, current, idle, nextPid, nextId, current, j, procs.of[current]);
        assert procs.of == procs0[current := procs.of[current]];
        CollectedReaps(procs0, all0, ready, current, idle, nextPid, nextId, reaped0, current, j, procs.of[current]);
      }
    }

    /** scheduler_unregister, as waitpid calls it: for a process that is not listed any
        more it walks the list and changes nothing. */
    method Unregister(id: int)
      requires id !in all
    {
      var i := 0;
      while i < |all|
        invariant i >= 0
      {
        i := Behind(all, id, i);
      }
    }

    /** The rest of waitpid. A zombie in hand is freed, and its pid returned: the call
        was after it, and no list holds it any more. */
    method WaitFinish() returns (r: WaitResult)
      requires Valid() && current != idle && current in procs.of && procs.of[current].call.Wait?
      modifies this`procs
      ensures Valid() && current in procs.of && procs.of[current].call.NoCall?
      ensures var c := old(procs).of[current].call;
              && (r.WasInterrupted? <==> c.interrupted)
              && (r.NoSuchChild? <==> !c.interrupted && c.waited.None?)
              && (r.Child? ==>
                    var z := c.waited.value;
                    && z in old(procs).of && IsTarget(c, old(procs).of[z]) && old(procs).of[z].state.Dead?
                    && r.pid == old(procs).of[z].pid && r.status == old(procs).of[z].status
                    && procs.of.Keys == old(procs).of.Keys - {z} && z !in all && z !in ready && z != current)
      ensures !r.Child? ==> procs.of.Keys == old(procs).of.Keys
      ensures var p := old(procs).of[current];
              procs.of == old(procs).of[current := p.(call := NoCall)]
                          - if r.Child? then {p.call.waited.value} else {}
      ensures Reaping(old(procs).of, all, reaped, procs.of, all, reaped) && CallsKept()
    {
      hide Inv, Reaping, KeptCalls;
      CurrentFacts(procs.of, all, ready, current, idle, nextPid, nextId);
      AllListed(procs.of, all, ready, current, idle, nextPid, nextId, reaped);
      ghost var table := procs.of;
      var p := procs.of[current];
      var q := p.(call := NoCall);
      if p.call.interrupted || p.call.waited.None? {
        Restated(procs.of, all, ready, current, idle, nextPid, nextId, current, q);
        ReapingSet(procs.of, all, reaped, procs.of, all, reaped, current, q);
        procs := Table(procs.of[current := q]);
        CallsSet(table, current, q);
        return if p.call.interrupted then WasInterrupted else NoSuchChild;
      }
      var z := p.call.waited.value;
      Finished(procs.of, all, ready, current, idle, nextPid, nextId, z, q);
      ReapingFinished(procs.of, all, reaped, current, q, z);
      Unregister(z);
      r := Child(procs.of[z].pid, procs.of[z].status);
      procs := Table(procs.of[current := q] - {z});
      assert procs.of.Keys == table.Keys - {z};
      CallsFreed(table, current, q, z);
    }

    /** The end of a wait that slept: procs0 and all0 are the table and the list before the walk
        that woke the caller, procs1 and all1 those after it; since then what is in the call has
        stayed, and so have the dead. It was interrupted exactly if a signal was pending when it was
        woken; else it returns the pid and status of a dead target that was listed then and was
        taken out of the list, and that one is freed; or there was no target. */
    method WaitAnswered(ghost procs0: Procs, ghost all0: seq<int>, ghost procs1: Procs, ghost all1: seq<int>,
                        awake: set<int>)
      returns (r: WaitResult)
      requires Valid() && current != idle && current in procs.of && current in procs0 && current in procs1
      requires Woke(procs0, all0, procs1, all1, current, awake) && procs0[current].blocker.OnWait?
      requires procs0[current].call.Wait? && procs0[current].call.waited.None?
      requires procs.of[current].call == procs1[current].call
      requires forall z :: z in procs0 && z in procs.of && procs0[z].state.Dead? ==> procs.of[z] == procs0[z]
      modifies this`procs
      ensures Valid() && CallsKept() && (r.WasInterrupted? <==> procs0[current].signals != {})
      ensures r.NoSuchChild? ==> NoTarget(procs1, all1, procs0[current].call)
      ensures r.Child? ==>
                exists z ::
                  && z in all0 && z !in all1 && z in procs0 && procs0[z].state.Dead?
                  && IsTarget(procs0[current].call, procs0[z]) && r == Child(procs0[z].pid, procs0[z].status)
                  && procs.of == old(procs).of[current := old(procs).of[current].(call := NoCall)] - {z}
      ensures !r.Child? ==> procs.of == old(procs).of[current := old(procs).of[current].(call := NoCall)]
    {
      hide Inv, Reaping, KeptCalls;
      ghost var c := procs.of[current].call;
      r := WaitFinish();
      if r.Child? {
        ghost var z := c.waited.value;
        assert r == Child(procs0[z].pid, procs0[z].status);
      }
    }

    /** waitpid with WNOHANG. It reports no child also when there are children and none
        of them is dead. */
    method WaitNoHang(param: int) returns (r: WaitResult)
      requires Valid() && current != idle && current in procs.of && procs.of[current].call.NoCall?
      modifies this`procs, this`all, this`reaped
      ensures Valid() && ReapsOnce() && !r.WasInterrupted? && CallsKept()
      ensures var p := old(procs).of[current];
              r.Child? <==> HasZombie(old(procs).of, old(all), Wait(param, p.pid, p.pgid, None, false))
      ensures var p := old(procs).of[current];
              var j := FirstZombie(old(procs).of, old(all), Wait(param, p.pid, p.pgid, None, false));
              if j < |old(all)| then
                var z := old(all)[j];
                && r == Child(old(procs).of[z].pid, old(procs).of[z].status)
                && procs.of == old(procs).of - {z} && all == Without(old(all), j)
              else r == NoSuchChild && procs == old(procs) && all == old(all)
    {
      hide Inv, Reaping, NoTarget, HasZombie, KeptCalls, Without, FirstZombie, Collects;
      OpenCall(param);
      ghost var table := procs.of;
      ZombieSame(old(procs).of, all, current, table[current], table[current].call);
      ghost var c := table[current].call;
      CurrentFacts(table, all, ready, current, idle, nextPid, nextId);
      ListedIn(table, all, nextPid, nextId);
      var found := CheckWait();
      ReapingThen(old(procs).of, old(all), old(reaped), table, old(all), old(reaped), procs.of, all, reaped);
      CollectsFrom(old(procs).of, table, old(all), current, c, procs.of, all);
      FirstIsZombie(old(procs).of, old(all), c);
      CollectedIs(old(procs).of, old(all), current, c, procs.of, all);
      CallOver(old(procs).of, current, procs.of[current].call);
      table := procs.of;
      r := WaitFinish();
      if r.Child? {
        ghost var z := table[current].call.waited.value;
        assert procs.of == old(procs).of - {z};
        DeadGone(old(procs).of, current, z);
      } else {
        assert procs.of == old(procs).of;
        CallsSame(old(procs).of, current);
      }
      ReapingThen(old(procs).of, old(all), old(reaped), table, all, reaped, procs.of, all, reaped);
    }

    // ----- fork and exit -----

    /** scheduler_register: in front of the first process with a pid that is not smaller. */
    method Register(id: int, q: Process)
      requires q.state.Runnable? && forall i {:trigger all[i]} :: 0 <= i < |all| ==> all[i] in procs.of && all[i] != id
      requires forall i, j :: 0 <= i < j < |all| ==> procs.of[all[i]].pid < procs.of[all[j]].pid
      modifies this`procs, this`all, this`ready
      ensures procs == Table(old(procs).of[id := q]) && ready == old(ready) + [id]
      ensures exists at :: 0 <= at <= |old(all)| && all == old(all)[..at] + [id] + old(all)[at..]
                           && forall i :: 0 <= i < |old(all)| ==> (old(procs).of[old(all)[i]].pid < q.pid <==> i < at)
    {
      var at := 0;
      while at < |all| && procs.of[all[at]].pid < q.pid
        invariant 0 <= at <= |all| && forall i :: 0 <= i < at ==> procs.of[all[i]].pid < q.pid
      {
        at := at + 1;
      }
      assert forall i :: at < i < |all| ==> procs.of[all[at]].pid < procs.of[all[i]].pid;
      procs := Table(procs.of[id := q]);
      all := all[..at] + [id] + all[at..];
      Enqueue(id);
    }

    /** sys_fork, as far as the scheduler is concerned: a new pid, a child of the caller. */
    method Fork() returns (pid: int)
      requires Valid() && current != idle && current in procs.of
      modifies this`procs, this`all, this`ready, this`nextPid, this`nextId
      ensures Valid() && Moved(false) && CallsKept()
      ensures pid == old(nextPid) && forall id :: id in old(procs).of ==>
                id in procs.of && procs.of[id] == old(procs).of[id] && old(procs).of[id].pid != pid
      ensures old(nextId) in procs.of && old(nextId) !in old(procs).of && old(nextId) in all
      ensures var p := old(procs).of[current];
              procs.of == old(procs).of[old(nextId) := Process(pid, p.pid, p.pgid, Runnable, NoBlocker, NoCall, {}, 0)]
      ensures ready == old(ready) + [old(nextId)] && forall z :: z in all <==> z in old(all) || z == old(nextId)
    {
      hide Inv, KeptCalls;
      ghost var procs0, all0 := procs.of, all;
      ListFacts(procs0, all0, ready, current, idle, nextPid, nextId);
      var p := procs.of[current];
      pid := nextPid;
      var q := Process(pid, p.pid, p.pgid, Runnable, NoBlocker, NoCall, {}, 0);
      var id := nextId;
      Register(id, q);
      ghost var at :| 0 <= at <= |all0| && all == all0[..at] + [id] + all0[at..]
                      && forall i :: 0 <= i < |all0| ==> (procs0[all0[i]].pid < q.pid <==> i < at);
      Born(procs0, all0, old(ready), current, idle, nextPid, nextId, q, at);
      nextPid, nextId := nextPid + 1, nextId + 1;
      assert all[at] == id;
      OneMoreListed(all0, all, at, id);
      BornCalls(procs0, old(current), id, q);
    }

    /** The loop of die: the children of the running process become init's. */
    method AdoptOrphans()
      requires Valid() && current != idle && current in procs.of
      modifies this`procs
      ensures Adopting(old(procs).of, procs.of, all, old(procs).of[current].pid)
    {
      hide Inv, Adopting;
      var pid := procs.of[current].pid;
      ListFacts(procs.of, all, ready, current, idle, nextPid, nextId);
      var i := 0;
      AdoptNone(procs.of, pid);
      assert all[..0] == [];
      while i < |all|
        invariant 0 <= i <= |all| && Adopting(old(procs).of, procs.of, all[..i], pid)
      {
        var it := all[i];
        assert it !in all[..i] && all[..i + 1] == all[..i] + [it];
        AdoptOne(old(procs).of, procs.of, all[..i], pid, it);
        if procs.of[it].ppid == pid {
          procs := Table(procs.of[it := procs.of[it].(ppid := 1)]);
        }
        i := i + 1;
      }
      assert all[..i] == all;
    }

    /** die, up to the switch: the running process is dead, and no child of it is left. */
    method Perish()
      requires Valid() && current != idle && current in procs.of && procs.of[current].call.NoCall?
      requires procs.of[current].pid != 1
      modifies this`procs
      ensures Consistent(idle) && current in procs.of && procs.of[current].state.Dead?
      ensures procs.of[current].status == old(procs).of[current].status
      ensures current in old(procs).of
              && Ended(old(procs).of, procs.of, all, current, old(procs).of[current].status)
      ensures forall id :: id in all ==> id in procs.of && procs.of[id].ppid != procs.of[current].pid
    {
      hide Inv;
      ghost var procs0 := procs.of;
      CurrentFacts(procs0, all, ready, current, idle, nextPid, nextId);
      AdoptOrphans();
      assert current in procs0.Keys;
      var q := procs.of[current].(state := Dead);
      procs := Table(procs.of[current := q]);
      assert procs.of.Keys == procs0.Keys;
      Died(procs0, procs.of, all, ready, current, idle, nextPid, nextId, q);
    }

    /** process_exit; init may not, the source panics. The zombie keeps its status until
        someone waits for it; `grave` is the table with it, when the switch starts. */
    method Exit(status: int, awake: set<int>) returns (ghost grave: Procs)
      requires Valid() && current != idle && current in procs.of && procs.of[current].call.NoCall?
      requires procs.of[current].pid != 1
      modifies this`procs, this`all, this`reaped, this`ready, this`current
      ensures Valid() && Moved(true)
      ensures old(current) in procs.of && procs.of[old(current)].state.Dead?
      ensures procs.of[old(current)].status == status % 256 * 256 && CallsKept()
      ensures old(current) in old(procs).of
              && Ended(old(procs).of, grave, old(all), old(current), status % 256 * 256)
              && Switched(grave, old(all), old(ready), procs.of, all, ready, current, idle, awake)
    {
      hide Inv, Reaping, Switched, Ended, KeptCalls;
      CurrentFacts(procs.of, all, ready, current, idle, nextPid, nextId);
      var q := procs.of[current].(status := status % 256 * 256);
      Restated(procs.of, all, ready, current, idle, nextPid, nextId, current, q);
      procs := Table(procs.of[current := q]);
      ghost var mid, me := procs.of, current;
      Perish();
      grave := procs.of;
      EndedWith(old(procs).of, mid, grave, all, me, status % 256 * 256);
      EndedCalls(old(procs).of, grave, all, me, status % 256 * 256);
      Switch(awake);
      ZombieKept(grave, old(all), old(reaped), procs.of, all, reaped, me);
      SwitchedCalls(grave, old(all), old(ready), procs.of, all, ready, current, idle, awake);
      CallsThen(old(procs).of, grave, procs.of, me);
    }

    /** process_die_if_needed, on the way back to user mode. */
    method DieIfNeeded(awake: set<int>) returns (ghost grave: Procs)
      requires Valid() && current != idle && current in procs.of && procs.of[current].call.NoCall?
      requires procs.of[current].pid != 1
      modifies this`procs, this`all, this`reaped, this`ready, this`current
      ensures Valid() && CallsKept()
      ensures old(procs).of[old(current)].state.Dying? ==> Moved(true)
      ensures old(procs).of[old(current)].state.Dying? ==>
                && Ended(old(procs).of, grave, old(all), old(current), old(procs).of[old(current)].status)
                && Switched(grave, old(all), old(ready), procs.of, all, ready, current, idle, awake)
      ensures !old(procs).of[old(current)].state.Dying? ==> Moved(false) && procs == old(procs) && all == old(all)
    {
      hide Inv, Reaping, Switched, Ended, KeptCalls;
      grave := procs.of;
      CallsSame(grave, current);
      if procs.of[current].state.Dying? {
        ghost var me := current;
        Perish();
        grave := procs.of;
        EndedCalls(old(procs).of, grave, all, me, old(procs).of[me].status);
        Switch(awake);
        SwitchedCalls(grave, old(all), old(ready), procs.of, all, ready, current, idle, awake);
        CallsThen(old(procs).of, grave, procs.of, me);
      }
    }

    // ----- signals -----

    /** send_signal to listed process id, a zombie perhaps. */
    method SendSignal(id: int, signum: int) returns (r: SignalResult)
      requires Valid() && id in all && id in procs.of
      modifies this`procs
      ensures Valid() && r == Reply(signum) && procs.of.Keys == old(procs).of.Keys
      ensures !Deadly(signum) ==> procs == old(procs)
      ensures Deadly(signum) ==> procs.of == old(procs).of[id := procs.of[id]]
                                 && Struck(old(procs).of[id], procs.of[id], id == current, signum)
    {
      hide Inv;
      if signum < 0 || NSIG <= signum { return BadSignal; }
      match DefaultOf(signum)
      case Ignored => return Sent;
      case Unsupported => return Panics;
      case Terminates =>
        var q := procs.of[id].(signals := procs.of[id].signals + {signum});
        BlockedFacts(procs.of, all, ready, current, idle, nextPid, nextId, id);
        CurrentFacts(procs.of, all, ready, current, idle, nextPid, nextId);
        Signalled(procs.of, all, ready, current, idle, nextPid, nextId, id, q);
        procs := Table(procs.of[id := q]);
        if id == current { HandlePendingSignals(); }
        return Sent;
    }

    /** process_send_signal_to_group and process_send_signal_to_all, which differ in whom they
        skip; pid is the argument of kill. */
    method SendToEach(pid: int, signum: int) returns (r: SignalResult)
      requires Valid() && current in procs.of && pid <= 0
      modifies this`procs
      ensures Valid() && Killed(old(procs).of, procs.of, all, current, pid, old(procs).of[current], signum)
      ensures r == if AnyAddressed(old(procs).of, all, pid, old(procs).of[current]) then Reply(signum) else Sent
    {
      hide Inv, Struck, Deadly, Addressed, Reply;
      ghost var procs0 := procs.of;
      var caller, i := procs.of[current], 0;
      CurrentFacts(procs.of, all, ready, current, idle, nextPid, nextId);
      while i < |all|
        invariant Valid() && i <= |all| && Listed(procs.of, all, nextPid, nextId)
        invariant Killed(procs0, procs.of, all[..i], current, pid, caller, signum)
        invariant AnyAddressed(procs0, all[..i], pid, caller) ==> Reply(signum) == Sent
      {
        var id := all[i];
        FirstTime(procs.of, all, nextPid, nextId, i);
        assert all[..i + 1] == all[..i] + [id] && procs.of[id] == procs0[id];
        if Addressed(pid, caller, procs.of[id]) {
          r := SendSignal(id, signum);
          CurrentFacts(procs.of, all, ready, current, idle, nextPid, nextId);
          if !r.Sent? { NotSent(signum); return; }
        }
        i := i + 1;
      }
      assert all[..i] == all;
      r := Sent;
    }

    /** kill: every listed process it is after gets the signal, and nobody else does. It reports a
        bad signal only if there is somebody to get it. */
    method Kill(pid: int, signum: int) returns (r: SignalResult)
      requires Valid() && current in procs.of
      modifies this`procs
      ensures Valid() && Killed(old(procs).of, procs.of, all, current, pid, old(procs).of[current], signum)
      ensures CallsKept()
      ensures r == if AnyAddressed(old(procs).of, all, pid, old(procs).of[current]) then Reply(signum)
                   else if pid > 0 then NoProcess else Sent
    {
      hide Inv, Struck, Deadly, Reply;
      CurrentFacts(procs.of, all, ready, current, idle, nextPid, nextId);
      if pid <= 0 {
        r := SendToEach(pid, signum);
        KilledCalls(old(procs).of, procs.of, all, current, pid, old(procs).of[current], signum);
        return;
      }
      var i := 0;
      while i < |all| && procs.of[all[i]].pid != pid
        invariant i <= |all| && forall k :: 0 <= k < i ==> procs.of[all[k]].pid != pid
      {
        i := i + 1;
      }
      if i == |all| {
        CallsSame(procs.of, current);
        return NoProcess;
      }
      r := SendSignal(all[i], signum);
      assert Killed(old(procs).of, procs.of, all, current, pid, old(procs).of[current], signum);
      KilledCalls(old(procs).of, procs.of, all, current, pid, old(procs).of[current], signum);
    }

    /** setpgid */
    method SetPgid(id: int, pgid: int)
      requires Valid() && id in all && id in procs.of
      modifies this`procs
      ensures Valid() && procs.of == old(procs).of[id := old(procs).of[id].(pgid := pgid)] && CallsKept()
    {
      Regrouped(procs.of, all, ready, current, idle, nextPid, nextId, id, procs.of[id].(pgid := pgid));
      procs := Table(procs.of[id := procs.of[id].(pgid := pgid)]);
    }
  }
}
