/** What a switch does to the processes that wait (kernel/scheduler.c): who is woken, why, and
    that nobody who could be is left asleep. */
module Waking {
  import opened Processes
  import opened Signals

  /** Process id is blocked, and unblock_processes has a reason to wake it: a pending signal, the
      predicate of waitpid, or another predicate, which `awake` stands for. */
  ghost predicate Wakeable(procs: Procs, all: seq<int>, id: int, awake: set<int>)
    requires id in procs
  {
    var p := procs[id];
    && p.state.Blocked?
    && (p.signals != {}
        || if p.blocker.OnWait? then HasZombie(procs, all, p.call) || NoTarget(procs, all, p.call) else id in awake)
  }

  /** Nobody in this part of the list is left asleep with a reason to be woken. */
  ghost predicate Settled(procs: Procs, all: seq<int>, part: set<int>, awake: set<int>) {
    forall id :: id in part && id in procs ==> !Wakeable(procs, all, id, awake)
  }

  /** Process id was blocked and runs again, and why: a signal, which interrupts a wait and takes
      nothing out of the list; its predicate; or a wait that has its answer, a dead target that was
      listed and is not any more, or no target. */
  ghost predicate Woke(procs0: Procs, all0: seq<int>, procs: Procs, all: seq<int>, id: int, awake: set<int>)
    requires id in procs0 && id in procs
  {
    var p0, p := procs0[id], procs[id];
    && p0.state.Blocked?
    && if p0.signals != {} || !p0.blocker.OnWait? then
         p == Awoken(p0) && (p0.signals != {} || id in awake)
       else
         && p0.call.Wait? && p.call.Wait?
         && p == Awoken(p0).(call := Awoken(p0).call.(waited := p.call.waited))
         && if p.call.waited.None? then NoTarget(procs, all, p0.call)
            else
              var z := p.call.waited.value;
              z in all0 && z !in all && z in procs0 && procs0[z].state.Dead? && IsTarget(p0.call, procs0[z])
  }

  /** The processes of `woken` were woken, in the order of the list, and nobody else changed. */
  ghost predicate WokenUp(procs0: Procs, all0: seq<int>, procs: Procs, all: seq<int>, woken: seq<int>, awake: set<int>)
  {
    && procs.Keys == procs0.Keys
    && (forall id :: id in procs0 && id in procs ==>
          if id in woken then Woke(procs0, all0, procs, all, id, awake) else procs[id] == procs0[id])
    && (forall i {:trigger woken[i]} :: 0 <= i < |woken| ==> woken[i] in procs0)
    && (forall i, j :: 0 <= i < j < |woken| ==> procs0[woken[i]].pid < procs0[woken[j]].pid)
  }

  lemma NobodyWoken(procs: Procs, all: seq<int>, awake: set<int>)
    ensures WokenUp(procs, all, procs, all, [], awake) && Settled(procs, all, {}, awake)
    ensures forall last :: UpTo(procs, [], last)
  {
  }

  lemma UnblocksIs(procs: Procs, all: seq<int>, id: int, awake: set<int>)
    requires id in procs && procs[id].state.Blocked? && (procs[id].blocker.OnWait? ==> procs[id].call.Wait?)
    requires forall i {:trigger all[i]} :: 0 <= i < |all| ==> all[i] in procs
    ensures Unblocks(procs, all, id, awake) <==> Wakeable(procs, all, id, awake)
  {
    if procs[id].blocker.OnWait? { FirstIsZombie(procs, all, procs[id].call); }
  }

  /** Process id has been woken; `rest` is what is left of the list. */
  ghost predicate Step(procs: Procs, all: seq<int>, q: Process, rest: seq<int>, id: int, awake: set<int>) {
    && id in procs && Woke(procs, all, procs[id := q], rest, id, awake)
    && (forall z :: z in rest ==> z in all)
    && (forall z :: z in all && z !in rest ==>
          q.call.Wait? && q.call.waited == Some(z) && z in procs && procs[z].state.Dead? && z != id)
  }

  /** Whoever is a target stays one while somebody else is woken, unless it is taken. */
  lemma TargetsKept(procs: Procs, all: seq<int>, q: Process, rest: seq<int>, id: int, awake: set<int>, c: Call)
    requires Step(procs, all, q, rest, id, awake) && c.Wait?
    ensures NoTarget(procs, all, c) ==> NoTarget(procs[id := q], rest, c)
    ensures !HasZombie(procs, all, c) ==> !HasZombie(procs[id := q], rest, c)
    ensures !HasZombie(procs, all, c) && !NoTarget(procs, all, c) ==> !NoTarget(procs[id := q], rest, c)
  {
    var procs' := procs[id := q];
    assert q.pid == procs[id].pid && q.ppid == procs[id].ppid && q.pgid == procs[id].pgid && !q.state.Dead?;
    forall z | z in procs ensures IsTarget(c, procs'[z]) <==> IsTarget(c, procs[z]) {}
    if HasZombie(procs', rest, c) {
      var z :| z in rest && z in procs' && IsTarget(c, procs'[z]) && procs'[z].state.Dead?;
      assert z in all && z in procs && IsTarget(c, procs[z]) && procs[z].state.Dead?;
    }
    if !HasZombie(procs, all, c) && !NoTarget(procs, all, c) {
      var t :| t in all && t in procs && IsTarget(c, procs[t]);
      assert t in rest && t in procs' && IsTarget(c, procs'[t]);
    }
  }

  ghost predicate UpTo(procs: Procs, woken: seq<int>, last: int) {
    forall w :: w in woken ==> w in procs && procs[w].pid <= last
  }

  lemma WokenMore(procs0: Procs, all0: seq<int>, procs: Procs, all: seq<int>, woken: seq<int>, awake: set<int>,
                  q: Process, rest: seq<int>, id: int, last: int)
    requires WokenUp(procs0, all0, procs, all, woken, awake) && Step(procs, all, q, rest, id, awake)
    requires UpTo(procs0, woken, last) && last < procs[id].pid && forall z :: z in all ==> z in all0
    ensures WokenUp(procs0, all0, procs[id := q], rest, woken + [id], awake)
    ensures UpTo(procs0, woken + [id], procs[id].pid)
  {
    hide Woke, Step;
    var procs', now := procs[id := q], woken + [id];
    StepFacts(procs, all, q, rest, id, awake);
    WokenPids(procs0, all0, procs, all, woken, awake);
    assert id in procs0.Keys && procs'.Keys == procs0.Keys;
    assert forall i :: 0 <= i < |woken| ==> woken[i] in woken;
    assert forall i :: 0 <= i < |now| ==> now[i] == if i < |woken| then woken[i] else id;
    forall w | w in procs0 && w in procs'
      ensures if w in now then Woke(procs0, all0, procs', rest, w, awake) else procs'[w] == procs0[w]
    {
      if w == id {
        WokeFromStart(procs0, all0, procs, all, woken, awake, q, rest, id);
      } else if w in woken {
        WokeStays(procs0, all0, procs, all, awake, q, rest, id, w);
      }
    }
    forall i, j | 0 <= i < j < |now| ensures procs0[now[i]].pid < procs0[now[j]].pid {
      assert j < |woken| || procs0[woken[i]].pid <= last;
    }
    forall w | w in now ensures w in procs0 && procs0[w].pid <= procs[id].pid { assert w in woken || w == id; }
  }

  lemma WokeStays(procs0: Procs, all0: seq<int>, procs: Procs, all: seq<int>, awake: set<int>, q: Process,
                  rest: seq<int>, id: int, w: int)
    requires Step(procs, all, q, rest, id, awake) && w in procs0 && w in procs && w != id
    requires Woke(procs0, all0, procs, all, w, awake)
    ensures Woke(procs0, all0, procs[id := q], rest, w, awake)
  {
    if procs0[w].call.Wait? { TargetsKept(procs, all, q, rest, id, awake, procs0[w].call); }
  }

  lemma WokeFromStart(procs0: Procs, all0: seq<int>, procs: Procs, all: seq<int>, woken: seq<int>, awake: set<int>,
                      q: Process, rest: seq<int>, id: int)
    requires WokenUp(procs0, all0, procs, all, woken, awake) && Step(procs, all, q, rest, id, awake)
    requires id !in woken && (forall z :: z in all ==> z in all0)
    ensures id in procs0 && Woke(procs0, all0, procs[id := q], rest, id, awake)
  {
    assert id in procs0 && procs[id] == procs0[id];
    var c := procs[id].call;
    if procs[id].signals == {} && procs[id].blocker.OnWait? && q.call.waited.Some? {
      var z := q.call.waited.value;
      assert z in procs0;
      assert z in woken ==> Woke(procs0, all0, procs, all, z, awake);
    }
  }

  lemma SettledStays(procs: Procs, all: seq<int>, part: set<int>, awake: set<int>, q: Process, rest: seq<int>, id: int)
    requires Settled(procs, all, part, awake) && Step(procs, all, q, rest, id, awake)
    ensures Settled(procs[id := q], rest, part + {id}, awake)
  {
    var procs' := procs[id := q];
    forall w | w in part + {id} && w in procs' ensures !Wakeable(procs', rest, w, awake) {
      if w != id && procs[w].state.Blocked? {
        assert !Wakeable(procs, all, w, awake);
        if procs[w].call.Wait? { TargetsKept(procs, all, q, rest, id, awake, procs[w].call); }
      }
    }
  }

  /** Process id was asleep with a reason to be woken: q is what it has become. */
  lemma StepIs(procs: Procs, all: seq<int>, q: Process, rest: seq<int>, id: int, awake: set<int>, j: nat)
    requires id in procs && procs[id].state.Blocked?
             && (forall i {:trigger all[i]} :: 0 <= i < |all| ==> all[i] in procs)
    requires procs[id].blocker.OnWait? ==> procs[id].call.Wait? && procs[id].call.waited.None?
    requires procs[id].blocker.OnOther? ==> procs[id].call.NoCall?
    requires !procs[id].blocker.NoBlocker? && Unblocks(procs, all, id, awake) && j <= |all|
    requires procs[id].signals == {} && procs[id].blocker.OnWait? ==> j == FirstZombie(procs, all, procs[id].call)
    requires procs[id].signals != {} || !procs[id].blocker.OnWait? ==> j == |all|
    requires if j == |all| then rest == all && q == Awoken(procs[id])
             else (forall z :: z in rest <==> z in all && z != all[j]) && procs[id].call.Wait?
                  && q == Awoken(procs[id]).(call := Awoken(procs[id]).call.(waited := Some(all[j])))
    ensures Step(procs, all, q, rest, id, awake)
  {
    hide FirstZombie, AnyTarget;
    UnblocksIs(procs, all, id, awake);
    if j < |all| {
      ZombieIs(procs, all, procs[id].call);
    } else if procs[id].signals == {} && procs[id].blocker.OnWait? {
      FirstIsZombie(procs, all, procs[id].call);
    }
  }

  ghost function Ids(all: seq<int>): set<int> {
    set id | id in all
  }

  /** The walk along the list has come to index i: those before it have pids up to `last`. */
  ghost predicate WalkedTo(procs: Procs, all: seq<int>, i: nat, last: int) {
    forall k :: 0 <= k < |all| && all[k] in procs ==> (k < i <==> procs[all[k]].pid <= last)
  }

  /** Those that have been passed. */
  ghost function Passed(procs: Procs, all: seq<int>, last: int): set<int> {
    set id | id in all && id in procs && procs[id].pid <= last
  }

  lemma WalkStarts(procs: Procs, all: seq<int>, nextPid: int, nextId: int) returns (last: int)
    requires Listed(procs, all, nextPid, nextId)
    ensures WalkedTo(procs, all, 0, last) && Passed(procs, all, last) == {}
  {
    last := if all == [] then 0 else procs[all[0]].pid - 1;
    forall id | id in all ensures procs[id].pid > last {
      var k :| 0 <= k < |all| && all[k] == id;
    }
  }

  /** Process `it` at index i has been looked at; it is at index k of what is left of the list. */
  lemma WalkOn(procs: Procs, all: seq<int>, i: nat, procs': Procs, rest: seq<int>, k: nat, nextPid: int, nextId: int,
               last: int)
    requires Listed(procs', rest, nextPid, nextId) && Listed(procs, all, nextPid, nextId)
    requires WalkedTo(procs, all, i, last) && i < |all| && k < |rest| && rest[k] == all[i]
    requires procs'.Keys == procs.Keys && forall id :: id in procs ==> procs'[id].pid == procs[id].pid
    requires forall z :: z in rest ==> z in all
    ensures WalkedTo(procs', rest, k + 1, procs[all[i]].pid)
    ensures Passed(procs', rest, procs[all[i]].pid) <= Passed(procs, all, last) + {all[i]}
  {
    var it := all[i];
    forall id | id in Passed(procs', rest, procs[it].pid) ensures id in Passed(procs, all, last) + {it} {
      var m :| 0 <= m < |all| && all[m] == id;
      assert procs[all[m]].pid <= procs[all[i]].pid;
    }
  }

  lemma SettledLess(procs: Procs, all: seq<int>, part: set<int>, awake: set<int>, id: int, less: set<int>)
    requires Settled(procs, all, part, awake) && less <= part + {id} && id in procs
    requires id in part || !Wakeable(procs, all, id, awake)
    ensures Settled(procs, all, less, awake)
  {
  }

  lemma NotAsleep(procs: Procs, all: seq<int>, id: int, awake: set<int>)
    requires id in procs && !procs[id].state.Blocked?
    ensures !Wakeable(procs, all, id, awake)
  {
  }

  lemma WithoutLess(all: seq<int>, j: nat)
    requires j < |all|
    ensures |Without(all, j)| == |all| - 1
  {
  }

  lemma ListedIn(procs: Procs, all: seq<int>, nextPid: int, nextId: int)
    requires Listed(procs, all, nextPid, nextId)
    ensures forall i {:trigger all[i]} :: 0 <= i < |all| ==> all[i] in procs
  {
  }

  /** The walk has come to index i, and has woken these processes. */
  ghost predicate Walking(procs0: Procs, all0: seq<int>, procs: Procs, all: seq<int>, woken: seq<int>, awake: set<int>,
                          i: nat, last: int)
  {
    && WokenUp(procs0, all0, procs, all, woken, awake) && UpTo(procs0, woken, last)
    && Settled(procs, all, Passed(procs, all, last), awake) && WalkedTo(procs, all, i, last)
  }

  /** A round of the walk. */
  lemma WalkStep(procs0: Procs, all0: seq<int>, procs: Procs, all: seq<int>, woken: seq<int>, awake: set<int>, i: nat,
                 last: int, procs': Procs, rest: seq<int>, k: nat, nextPid: int, nextId: int)
    requires Walking(procs0, all0, procs, all, woken, awake, i, last) && i < |all| && all[i] in procs
    requires (forall z :: z in all ==> z in all0) && k < |rest| && rest[k] == all[i]
    requires Listed(procs, all, nextPid, nextId) && Listed(procs', rest, nextPid, nextId)
    requires var id := all[i];
             if Wakeable(procs, all, id, awake) then
               id in procs' && procs' == procs[id := procs'[id]] && Step(procs, all, procs'[id], rest, id, awake)
             else procs' == procs && rest == all
    ensures var id := all[i];
            Walking(procs0, all0, procs', rest, if Wakeable(procs, all, id, awake) then woken + [id] else woken, awake,
                    k + 1, procs[id].pid)
  {
    hide WokenUp, Settled, WalkedTo, Passed, Step, Wakeable, Listed, UpTo;
    var id, part := all[i], Passed(procs, all, last);
    WalkAt(procs, all, i, last);
    if Wakeable(procs, all, id, awake) {
      StepFacts(procs, all, procs'[id], rest, id, awake);
      WokenMore(procs0, all0, procs, all, woken, awake, procs'[id], rest, id, last);
      SettledStays(procs, all, part, awake, procs'[id], rest, id);
      part := part + {id};
    } else {
      UpToMore(procs0, woken, last, procs[id].pid);
    }
    WalkOn(procs, all, i, procs', rest, k, nextPid, nextId, last);
    SettledLess(procs', rest, part, awake, id, Passed(procs', rest, procs[id].pid));
  }

  lemma UpToMore(procs: Procs, woken: seq<int>, last: int, more: int)
    requires UpTo(procs, woken, last) && last <= more
    ensures UpTo(procs, woken, more)
  {
  }

  /** At the end all have been passed. */
  lemma WalkEnds(procs: Procs, all: seq<int>, i: nat, last: int)
    requires WalkedTo(procs, all, i, last) && i >= |all| && forall k {:trigger all[k]} :: 0 <= k < |all| ==>
               all[k] in procs
    ensures Ids(all) <= Passed(procs, all, last)
  {
    forall id | id in Ids(all) ensures id in Passed(procs, all, last) {
      var k :| 0 <= k < |all| && all[k] == id;
    }
  }

  /** The walk comes to a process it has not passed. */
  lemma WalkAt(procs: Procs, all: seq<int>, i: nat, last: int)
    requires WalkedTo(procs, all, i, last) && i < |all| && all[i] in procs
    ensures procs[all[i]].pid > last
  {
  }

  lemma StepFacts(procs: Procs, all: seq<int>, q: Process, rest: seq<int>, id: int, awake: set<int>)
    requires Step(procs, all, q, rest, id, awake)
    ensures id in procs && q.pid == procs[id].pid && forall z :: z in rest ==> z in all
  {
  }

  lemma ListShrinks(procs0: Procs, all0: seq<int>, reaped0: set<int>, procs: Procs, all: seq<int>, reaped: set<int>)
    requires Reaping(procs0, all0, reaped0, procs, all, reaped)
    ensures forall z :: z in all ==> z in all0
  {
  }

  lemma WokenPids(procs0: Procs, all0: seq<int>, procs: Procs, all: seq<int>, woken: seq<int>, awake: set<int>)
    requires WokenUp(procs0, all0, procs, all, woken, awake)
    ensures procs.Keys == procs0.Keys && forall id :: id in procs0 ==> procs[id].pid == procs0[id].pid
  {
    assert forall id :: id in procs0 ==> id in procs.Keys;
    forall id | id in procs0 && id in woken ensures procs[id].pid == procs0[id].pid {
      assert Woke(procs0, all0, procs, all, id, awake);
    }
  }

  /** The dispatched process goes on: with signals pending it is told to die. */
  ghost predicate Resumed(p: Process, q: Process) {
    if p.signals != {} then Doomed(p, q) else q == p.(state := if p.state.Runnable? then Running else p.state)
  }

  /** The head of the queue, or idle. */
  ghost predicate HeadOf(queue: seq<int>, ready: seq<int>, cur: int, idle: int) {
    if queue == [] then cur == idle && ready == [] else cur == queue[0] && ready == queue[1..]
  }

  /** A switch: the walk wakes whom it can, then the head of the queue goes on, and all others are
      as the walk has left them. Nobody who could be woken is left asleep. */
  ghost predicate Switched(procs0: Procs, all0: seq<int>, ready0: seq<int>, procs: Procs, all: seq<int>,
                           ready: seq<int>, cur: int, idle: int, awake: set<int>)
  {
    && Settled(procs, all, Ids(all), awake)
    && exists mid: Procs, woken: seq<int> ::
         && WokenUp(procs0, all0, mid, all, woken, awake) && HeadOf(ready0 + woken, ready, cur, idle)
         && cur in mid && cur in procs && procs == mid[cur := procs[cur]] && Resumed(mid[cur], procs[cur])
  }

  lemma SwitchedIs(procs0: Procs, all0: seq<int>, ready0: seq<int>, mid: Procs, all: seq<int>, woken: seq<int>,
                   q: Process, ready: seq<int>, cur: int, idle: int, awake: set<int>)
    requires WokenUp(procs0, all0, mid, all, woken, awake) && Settled(mid, all, Ids(all), awake)
    requires HeadOf(ready0 + woken, ready, cur, idle)
    requires cur in mid && Resumed(mid[cur], q) && Queueable(mid[cur].state) && SameRole(mid[cur], q)
    ensures Switched(procs0, all0, ready0, mid[cur := q], all, ready, cur, idle, awake)
  {
    var procs := mid[cur := q];
    assert !q.state.Blocked?;
    assert procs == mid[cur := procs[cur]];
    forall id | id in Ids(all) && id in procs ensures !Wakeable(procs, all, id, awake) {
      assert !Wakeable(mid, all, id, awake);
      if procs[id].state.Blocked? && procs[id].call.Wait? {
        ZombieSame(mid, all, cur, q, procs[id].call);
        TargetSame(mid, all, cur, q, procs[id].call);
      }
    }
  }

  lemma TargetSame(procs: Procs, all: seq<int>, id: int, q: Process, c: Call)
    requires id in procs && SameRole(procs[id], q) && c.Wait?
    ensures NoTarget(procs[id := q], all, c) <==> NoTarget(procs, all, c)
  {
    forall z | z in procs ensures IsTarget(c, procs[id := q][z]) <==> IsTarget(c, procs[z]) {}
  }

  /** Process c stopped for a condition just before the switch: it sleeps on exactly if no signal
      is pending and the condition does not hold; else it runs, or is queued. */
  lemma Sleeper(procs0: Procs, all0: seq<int>, ready0: seq<int>, procs: Procs, all: seq<int>, ready: seq<int>, cur: int,
                idle: int, awake: set<int>, c: int)
    requires Switched(procs0, all0, ready0, procs, all, ready, cur, idle, awake)
    requires c in procs0 && procs0[c].state.Blocked? && !procs0[c].blocker.OnWait? && c !in ready0 && c != idle
             && c in all
    ensures c in procs
    ensures if procs0[c].signals == {} && c !in awake then procs[c] == procs0[c] && c != cur
            else !procs[c].state.Blocked? && (c == cur || c in ready)
  {
    SleeperEither(procs0, all0, ready0, procs, all, ready, cur, idle, awake, c);
    assert c in Ids(all);
  }

  /** Either nothing has happened to it, or it was woken. */
  lemma SleeperEither(procs0: Procs, all0: seq<int>, ready0: seq<int>, procs: Procs, all: seq<int>, ready: seq<int>,
                      cur: int, idle: int, awake: set<int>, c: int)
    requires Switched(procs0, all0, ready0, procs, all, ready, cur, idle, awake)
    requires c in procs0 && procs0[c].state.Blocked? && c !in ready0 && c != idle
    ensures c in procs
    ensures || (procs[c] == procs0[c] && c != cur)
            || (!procs[c].state.Blocked? && (c == cur || c in ready)
                && exists q :: WokeAs(procs0, all0, procs, all, c, q, awake) && Resuming(q, procs[c], c == cur))
  {
    var mid: Procs, woken: seq<int> :|
      && WokenUp(procs0, all0, mid, all, woken, awake) && HeadOf(ready0 + woken, ready, cur, idle)
      && cur in mid && cur in procs && procs == mid[cur := procs[cur]] && Resumed(mid[cur], procs[cur]);
    assert c in mid.Keys;
    if c in woken {
      assert Woke(procs0, all0, mid, all, c, awake);
      assert c in ready0 + woken;
      WokeAsIs(procs0, all0, mid, procs, all, cur, c, awake);
    } else {
      assert mid[c] == procs0[c];
      assert c !in ready0 + woken;
    }
  }

  /** Process c was woken as q. */
  ghost predicate WokeAs(procs0: Procs, all0: seq<int>, procs: Procs, all: seq<int>, c: int, q: Process,
                         awake: set<int>)
  {
    c in procs0 && c in procs && Woke(procs0, all0, procs[c := q], all, c, awake)
  }

  ghost predicate Resuming(q: Process, p: Process, running: bool) {
    if running then Resumed(q, p) else p == q
  }

  lemma WokeAsIs(procs0: Procs, all0: seq<int>, mid: Procs, procs: Procs, all: seq<int>, cur: int, c: int,
                 awake: set<int>)
    requires c in procs0 && c in mid && cur in mid && cur in procs && procs == mid[cur := procs[cur]]
    requires Woke(procs0, all0, mid, all, c, awake) && Resumed(mid[cur], procs[cur])
    ensures WokeAs(procs0, all0, procs, all, c, mid[c], awake) && Resuming(mid[c], procs[c], c == cur)
    ensures !procs[c].state.Blocked?
  {
    if procs0[c].call.Wait? {
      var again := procs[c := mid[c]];
      assert forall z :: z in mid ==> z in again;
      forall z | z in mid ensures IsTarget(procs0[c].call, again[z]) <==> IsTarget(procs0[c].call, mid[z]) {}
    }
  }

  /** ... and for a wait that had no answer just before: it is woken exactly by a signal. */
  lemma Waiter(procs0: Procs, all0: seq<int>, reaped0: set<int>, ready0: seq<int>, procs: Procs, all: seq<int>,
               reaped: set<int>, ready: seq<int>, cur: int, idle: int, awake: set<int>, c: int)
    requires Switched(procs0, all0, ready0, procs, all, ready, cur, idle, awake)
    requires Reaping(procs0, all0, reaped0, procs, all, reaped) && forall z :: z in reaped0 ==> z !in all0
    requires c in procs0 && procs0[c].state.Blocked? && procs0[c].blocker.OnWait? && procs0[c].call.Wait?
    requires c !in ready0 && c != idle && c in all
    requires !HasZombie(procs0, all0, procs0[c].call) && !NoTarget(procs0, all0, procs0[c].call)
    ensures c in procs
    ensures if procs0[c].signals == {} then procs[c] == procs0[c] && c != cur
            else procs[c].call == procs0[c].call.(interrupted := true) && (c == cur || c in ready)
  {
    var mid: Procs, woken: seq<int> :|
      && WokenUp(procs0, all0, mid, all, woken, awake) && HeadOf(ready0 + woken, ready, cur, idle)
      && cur in mid && cur in procs && procs == mid[cur := procs[cur]] && Resumed(mid[cur], procs[cur]);
    assert c in mid.Keys && c in Ids(all);
    if c in woken {
      assert Woke(procs0, all0, mid, all, c, awake) && c in ready0 + woken;
      if procs0[c].signals == {} {
        var t :| t in all0 && t in procs0 && IsTarget(procs0[c].call, procs0[t]);
        WokenTargets(procs0, all0, mid, all, woken, awake, procs0[c].call, t);
        assert false;
      }
    } else {
      assert mid[c] == procs0[c] && c !in ready0 + woken;
    }
  }

  lemma WokenTargets(procs0: Procs, all0: seq<int>, procs: Procs, all: seq<int>, woken: seq<int>, awake: set<int>,
                     c: Call, t: int)
    requires WokenUp(procs0, all0, procs, all, woken, awake) && t in procs0 && c.Wait?
    ensures t in procs && (IsTarget(c, procs[t]) <==> IsTarget(c, procs0[t]))
  {
    assert t in procs.Keys;
    if t in woken { assert Woke(procs0, all0, procs, all, t, awake); }
  }

  // ----- what a process has in its call -----

  /** Everybody but process `me` who is awake stays so, with the same call on the stack. */
  ghost predicate KeptCalls(procs0: Procs, procs: Procs, me: int) {
    forall id :: id in procs0 && id != me && !procs0[id].state.Blocked? && !procs0[id].state.Dead? ==>
      && id in procs && procs[id].call == procs0[id].call
      && !procs[id].state.Blocked? && !procs[id].state.Dead?
  }

  lemma CallsSame(procs: Procs, me: int)
    ensures KeptCalls(procs, procs, me)
  {
  }

  lemma CallsSet(procs: Procs, id: int, q: Process)
    ensures KeptCalls(procs, procs[id := q], id)
  {
  }

  lemma CallsThen(procs0: Procs, mid: Procs, procs: Procs, me: int)
    requires KeptCalls(procs0, mid, me) && KeptCalls(mid, procs, me)
    ensures KeptCalls(procs0, procs, me)
  {
  }

  lemma AwakeSame(procs0: Procs, all0: seq<int>, procs: Procs, all: seq<int>, woken: seq<int>, awake: set<int>, id: int)
    requires WokenUp(procs0, all0, procs, all, woken, awake) && id in procs0 && !procs0[id].state.Blocked?
    ensures id in procs && procs[id] == procs0[id]
  {
    assert id in procs.Keys;
  }

  lemma SwitchedCalls(procs0: Procs, all0: seq<int>, ready0: seq<int>, procs: Procs, all: seq<int>, ready: seq<int>,
                      cur: int, idle: int, awake: set<int>)
    requires Switched(procs0, all0, ready0, procs, all, ready, cur, idle, awake)
    ensures forall me :: KeptCalls(procs0, procs, me)
  {
    var mid: Procs, woken: seq<int> :|
      && WokenUp(procs0, all0, mid, all, woken, awake) && HeadOf(ready0 + woken, ready, cur, idle)
      && cur in mid && cur in procs && procs == mid[cur := procs[cur]] && Resumed(mid[cur], procs[cur]);
    forall id | id in procs0 && !procs0[id].state.Blocked? && !procs0[id].state.Dead?
      ensures id in procs && procs[id].call == procs0[id].call
      ensures !procs[id].state.Blocked? && !procs[id].state.Dead?
    {
      AwakeSame(procs0, all0, mid, all, woken, awake, id);
    }
  }

  lemma NotQueued(procs: Procs, all: seq<int>, ready: seq<int>, current: int, idle: int, nextPid: int, nextId: int,
                  id: int)
    requires Inv(procs, all, ready, current, idle, nextPid, nextId) && id in procs && procs[id].state.Blocked?
    ensures id !in ready && id != current && id != idle
  {
  }

  lemma StillListed(procs0: Procs, all0: seq<int>, reaped0: set<int>, procs: Procs, all: seq<int>, reaped: set<int>,
                    id: int)
    requires Reaping(procs0, all0, reaped0, procs, all, reaped) && (forall z :: z in reaped0 ==> z !in all0)
    requires id in all0 && id in procs0 && !procs0[id].state.Dead?
    ensures id in all
  {
  }

  lemma CallsFreed(procs: Procs, me: int, q: Process, z: int)
    requires z in procs && procs[z].state.Dead?
    ensures KeptCalls(procs, procs[me := q] - {z}, me)
  {
  }

  lemma KilledCalls(procs0: Procs, procs: Procs, listed: seq<int>, current: int, pid: int, caller: Process,
                    signum: int)
    requires Killed(procs0, procs, listed, current, pid, caller, signum)
    ensures KeptCalls(procs0, procs, current)
  {
    assert forall id :: id in procs0 ==> id in procs.Keys;
  }

  lemma BornCalls(procs: Procs, me: int, id: int, q: Process)
    requires id !in procs
    ensures KeptCalls(procs, procs[id := q], me)
  {
  }

  lemma OneMoreListed(all0: seq<int>, all: seq<int>, at: nat, id: int)
    requires at <= |all0| && all == all0[..at] + [id] + all0[at..]
    ensures forall z :: z in all <==> z in all0 || z == id
  {
    assert all0 == all0[..at] + all0[at..];
  }

  lemma DeadGone(procs: Procs, me: int, z: int)
    requires z in procs && procs[z].state.Dead?
    ensures KeptCalls(procs, procs - {z}, me)
  {
  }

  /** Process me has died with this status, and its children are init's. */
  ghost predicate Ended(procs0: Procs, procs: Procs, all: seq<int>, me: int, status: int)
    requires me in procs0
  {
    var p := procs0[me];
    Adopted(procs0, procs, all, me, p.(ppid := if p.ppid == p.pid then 1 else p.ppid, state := Dead, status := status))
  }

  lemma EndedCalls(procs0: Procs, procs: Procs, all: seq<int>, me: int, status: int)
    requires me in procs0 && Ended(procs0, procs, all, me, status)
    ensures KeptCalls(procs0, procs, me)
  {
    assert forall id :: id in procs0 ==> id in procs.Keys;
  }

  /** The status was set before. */
  lemma EndedWith(procs0: Procs, mid: Procs, procs: Procs, all: seq<int>, me: int, status: int)
    requires me in procs0 && mid == procs0[me := procs0[me].(status := status)] && Ended(mid, procs, all, me, status)
    ensures Ended(procs0, procs, all, me, status)
  {
    assert mid.Keys == procs0.Keys;
  }

  // ----- waitpid -----

  /** The predicate of waitpid with call c, for process me: the first dead target is taken out of
      the list and put into the call. */
  ghost predicate Collects(procs0: Procs, all0: seq<int>, me: int, c: Call, procs: Procs, all: seq<int>)
    requires me in procs0 && c.Wait? && forall i {:trigger all0[i]} :: 0 <= i < |all0| ==> all0[i] in procs0
  {
    var j := FirstZombie(procs0, all0, c);
    && all == (if j < |all0| then Without(all0, j) else all0)
    && procs == procs0[me := procs0[me].(call := c.(waited := if j < |all0| then Some(all0[j]) else c.waited))]
  }

  /** Who is a dead target does not depend on what processes are waiting for. */
  lemma CollectsFrom(procs0: Procs, mid: Procs, all0: seq<int>, me: int, c: Call, procs: Procs, all: seq<int>)
    requires me in procs0 && c.Wait? && mid == procs0[me := procs0[me].(call := c)]
    requires forall i {:trigger all0[i]} :: 0 <= i < |all0| ==> all0[i] in procs0
    requires Collects(mid, all0, me, c, procs, all)
    ensures Collects(procs0, all0, me, c, procs, all)
    ensures FirstZombie(procs0, all0, c) == FirstZombie(mid, all0, c)
  {
    hide Without, FirstZombie;
    CallAside(procs0, mid, all0, me, c);
    FirstIs(procs0, all0, mid, c);
    var j := FirstZombie(mid, all0, c);
    CallAgain(procs0, me, c, c.(waited := if j < |all0| then Some(all0[j]) else c.waited));
  }

  lemma CallAgain(procs: Procs, me: int, c: Call, d: Call)
    requires me in procs
    ensures var mid := procs[me := procs[me].(call := c)];
            mid[me := mid[me].(call := d)] == procs[me := procs[me].(call := d)]
  {
  }

  lemma CallAside(procs0: Procs, mid: Procs, all0: seq<int>, me: int, c: Call)
    requires me in procs0 && c.Wait? && mid == procs0[me := procs0[me].(call := c)]
    requires forall i {:trigger all0[i]} :: 0 <= i < |all0| ==> all0[i] in procs0
    ensures forall i {:trigger all0[i]} :: 0 <= i < |all0| ==>
              && all0[i] in mid
              && (IsTarget(c, mid[all0[i]]) <==> IsTarget(c, procs0[all0[i]]))
              && mid[all0[i]].state == procs0[all0[i]].state
  {
    forall i | 0 <= i < |all0| ensures IsTarget(c, mid[all0[i]]) <==> IsTarget(c, procs0[all0[i]]) {}
  }

  lemma FirstIs(procs0: Procs, all0: seq<int>, mid: Procs, c: Call)
    requires c.Wait? && forall i {:trigger all0[i]} :: 0 <= i < |all0| ==> all0[i] in procs0 && all0[i] in mid
    requires forall i :: 0 <= i < |all0| ==>
               (IsTarget(c, mid[all0[i]]) && mid[all0[i]].state.Dead?
                <==> IsTarget(c, procs0[all0[i]]) && procs0[all0[i]].state.Dead?)
    ensures FirstZombie(procs0, all0, c) == FirstZombie(mid, all0, c)
  {
    FirstUnique(mid, all0, c, FirstZombie(procs0, all0, c));
  }

  lemma FirstUnique(procs: Procs, all: seq<int>, c: Call, j: nat)
    requires c.Wait? && (forall i {:trigger all[i]} :: 0 <= i < |all| ==> all[i] in procs) && j <= |all|
    requires j < |all| ==> IsTarget(c, procs[all[j]]) && procs[all[j]].state.Dead?
    requires forall i :: 0 <= i < j ==> !(IsTarget(c, procs[all[i]]) && procs[all[i]].state.Dead?)
    ensures FirstZombie(procs, all, c) == j
  {
  }

  /** The call is over. */
  lemma CallOver(procs: Procs, me: int, c: Call)
    requires me in procs && procs[me].call.NoCall?
    ensures var mid := procs[me := procs[me].(call := c)];
            mid[me := mid[me].(call := NoCall)] == procs
  {
  }

  lemma CollectedIs(procs0: Procs, all0: seq<int>, me: int, c: Call, procs: Procs, all: seq<int>)
    requires me in procs0 && c.Wait? && c.waited.None?
    requires forall i {:trigger all0[i]} :: 0 <= i < |all0| ==> all0[i] in procs0
    requires Collects(procs0, all0, me, c, procs, all)
    ensures var j := FirstZombie(procs0, all0, c);
            && all == (if j < |all0| then Without(all0, j) else all0)
            && procs == procs0[me := procs0[me].(call := procs[me].call)]
            && (if j < |all0| then procs[me].call.Wait? && procs[me].call.waited == Some(all0[j])
                                   && procs0[all0[j]].state.Dead?
                else procs[me].call == c)
  {
    hide Without, IsTarget;
  }

  /** A child as fork makes it is a target of its parent whichever way the parent asks, and of
      nobody else who asks for any child. */
  lemma ChildIsTarget(p: Process, q: Process, x: Process)
    requires q.ppid == p.pid && q.pgid == p.pgid && q.pid > 0
    ensures IsTarget(Wait(-1, p.pid, p.pgid, None, false), q) && IsTarget(Wait(0, p.pid, p.pgid, None, false), q)
    ensures IsTarget(Wait(q.pid, p.pid, p.pgid, None, false), q)
    ensures p.pgid > 1 ==> IsTarget(Wait(-p.pgid, p.pid, p.pgid, None, false), q)
    ensures IsTarget(Wait(-1, x.pid, x.pgid, None, false), q) <==> x.pid == p.pid
    ensures IsTarget(Wait(0, x.pid, x.pgid, None, false), q) <==> x.pgid == p.pgid
  {
  }

  /** A caller of waitpid stops: its call is after the same processes. */
  lemma WaiterStops(procs0: Procs, procs: Procs, all: seq<int>, me: int)
    requires me in procs0 && me in procs && procs[me].call.Wait? && !procs0[me].state.Dead? && !procs[me].state.Dead?
    requires procs == procs0[me := procs[me]] && SameIds(procs0[me], procs[me])
    ensures HasZombie(procs, all, procs[me].call) <==> HasZombie(procs0, all, procs[me].call)
    ensures NoTarget(procs, all, procs[me].call) <==> NoTarget(procs0, all, procs[me].call)
  {
    var c := procs[me].call;
    forall z | z in procs ensures IsTarget(c, procs[z]) <==> IsTarget(c, procs0[z]) {}
    if HasZombie(procs0, all, c) {
      var z :| z in all && z in procs0 && IsTarget(c, procs0[z]) && procs0[z].state.Dead?;
      assert z in procs && IsTarget(c, procs[z]) && procs[z].state.Dead?;
    }
  }

  predicate SameIds(p: Process, q: Process) {
    q.pid == p.pid && q.ppid == p.ppid && q.pgid == p.pgid
  }
}
