/** Processes and the lists the scheduler keeps them in (kernel/process.h,
    kernel/scheduler.c), as values: what holds between any two steps, and why each
    elementary change of the lists keeps it. Processes are named by ids that are
    never used twice; pids are what users see. */
module Processes {

  datatype Option<T> = None | Some(value: T)

  datatype State = Runnable | Running | Blocked | Dying | Dead

  /** should_unblock: the predicate of waitpid, or some other condition. */
  datatype Blocker = NoBlocker | OnWait | OnOther

  /** struct waitpid_blocker, while a waitpid call is on the stack, and whether the
      wait was interrupted. */
  datatype Call = NoCall | Wait(param: int, pid: int, pgid: int, waited: Option<int>, interrupted: bool)

  datatype Process = Process(pid: int, ppid: int, pgid: int, state: State, blocker: Blocker, call: Call,
                             signals: set<nat>, status: int)
  {
    predicate Holding() {
      call.Wait? && call.waited.Some?
    }
  }

  type Procs = map<int, Process>

  /** Which processes a waitpid call is after. */
  predicate IsTarget(c: Call, p: Process)
    requires c.Wait?
  {
    if c.param < -1 then p.pgid == -c.param
    else if c.param == -1 then p.ppid == c.pid
    else if c.param == 0 then p.pgid == c.pgid
    else p.pid == c.param
  }

  /** all_processes: sorted by pid, so acyclic; pids and ids come from counters. */
  ghost predicate Listed(procs: Procs, all: seq<int>, nextPid: int, nextId: int) {
    && (forall i {:trigger all[i]} :: 0 <= i < |all| ==> all[i] in procs)
    && (forall i, j :: 0 <= i < j < |all| ==> procs[all[i]].pid < procs[all[j]].pid)
    && (forall id :: id in procs ==> id < nextId && procs[id].pid < nextPid)
  }

  predicate Queueable(s: State) {
    s.Runnable? || s.Running? || s.Dying?
  }

  /** Every listed process is exactly one of: current, queued once, blocked, dead. */
  ghost predicate Partition(procs: Procs, all: seq<int>, ready: seq<int>, current: int, idle: int) {
    && idle in procs && idle !in all && (current == idle || current in all)
    && current in procs && Queueable(procs[current].state)
    && (forall i, j :: 0 <= i < j < |ready| ==> ready[i] != ready[j])
    && (forall i {:trigger ready[i]} :: 0 <= i < |ready| ==>
          ready[i] in all && ready[i] in procs && ready[i] != current && Queueable(procs[ready[i]].state))
    && (forall id :: id in all && id in procs && id != current && id !in ready ==>
          procs[id].state.Blocked? || procs[id].state.Dead?)
  }

  /** A blocked process has a predicate, and only a blocked one; a dead one waits for nothing. */
  ghost predicate Waiting(procs: Procs) {
    forall id :: id in procs ==>
      && (procs[id].state.Blocked? <==> !procs[id].blocker.NoBlocker?)
      && (procs[id].blocker.OnWait? ==> procs[id].call.Wait? && procs[id].call.waited.None?)
      && (procs[id].blocker.OnOther? ==> procs[id].call.NoCall?)
      && (procs[id].state.Dead? ==> procs[id].call.NoCall?)
      && (procs[id].call.Wait? && procs[id].call.interrupted ==> procs[id].call.waited.None?)
  }

  /** The parent of every listed process is listed and not dead. */
  ghost predicate Family(procs: Procs, all: seq<int>) {
    && (forall id {:trigger HasParent(procs, all, procs[id].ppid)} :: id in all && id in procs ==>
          HasParent(procs, all, procs[id].ppid))
    && HasParent(procs, all, 1)
  }

  ghost predicate HasParent(procs: Procs, all: seq<int>, pid: int) {
    exists q :: q in all && q in procs && procs[q].pid == pid && !procs[q].state.Dead?
  }

  /** An unlisted process other than idle is a dead one that exactly one waitpid call
      has in hand, and that call was after it. */
  ghost predicate Reaped(procs: Procs, all: seq<int>, idle: int) {
    && (forall p :: p in procs && procs[p].Holding() ==>
          && p in all && procs[p].call.waited.value in procs && procs[p].call.waited.value !in all
          && procs[p].call.waited.value != idle && procs[procs[p].call.waited.value].state.Dead?
          && IsTarget(procs[p].call, procs[procs[p].call.waited.value]))
    && (forall p, q :: p in procs && q in procs && procs[p].Holding() && procs[q].Holding() && p != q ==>
          procs[p].call.waited.value != procs[q].call.waited.value)
    && (forall z {:trigger HeldBySomeone(procs, z)} :: z in procs && z !in all && z != idle ==> HeldBySomeone(procs, z))
  }

  ghost predicate HeldBySomeone(procs: Procs, z: int) {
    exists p :: p in procs && procs[p].Holding() && procs[p].call.waited.value == z
  }

  ghost predicate Inv(procs: Procs, all: seq<int>, ready: seq<int>, current: int, idle: int, nextPid: int,
                      nextId: int)
  {
    && Listed(procs, all, nextPid, nextId)
    && Partition(procs, all, ready, current, idle)
    && Waiting(procs)
    && Family(procs, all)
    && Reaped(procs, all, idle)
    && procs[idle].call.NoCall? && Queueable(procs[idle].state)
  }

  /** The first dead target of a waitpid call, or |all|. */
  function FirstZombie(procs: Procs, all: seq<int>, c: Call): (j: nat)
    requires c.Wait? && forall i {:trigger all[i]} :: 0 <= i < |all| ==> all[i] in procs
    ensures j <= |all|
    ensures j < |all| ==> IsTarget(c, procs[all[j]]) && procs[all[j]].state.Dead?
    ensures forall i :: 0 <= i < j ==> !(IsTarget(c, procs[all[i]]) && procs[all[i]].state.Dead?)
  {
    if all == [] then 0
    else if IsTarget(c, procs[all[0]]) && procs[all[0]].state.Dead? then 0
    else 1 + FirstZombie(procs, all[1..], c)
  }

  ghost predicate AnyTarget(procs: Procs, all: seq<int>, c: Call)
    requires c.Wait? && forall i {:trigger all[i]} :: 0 <= i < |all| ==> all[i] in procs
  {
    exists i :: 0 <= i < |all| && IsTarget(c, procs[all[i]])
  }

  ghost predicate HasZombie(procs: Procs, all: seq<int>, c: Call) {
    c.Wait? && exists z :: z in all && z in procs && IsTarget(c, procs[z]) && procs[z].state.Dead?
  }

  lemma FirstIsZombie(procs: Procs, all: seq<int>, c: Call)
    requires c.Wait? && forall i {:trigger all[i]} :: 0 <= i < |all| ==> all[i] in procs
    ensures HasZombie(procs, all, c) <==> FirstZombie(procs, all, c) < |all|
    ensures NoTarget(procs, all, c) <==> !AnyTarget(procs, all, c)
  {
    if HasZombie(procs, all, c) {
      var z :| z in all && z in procs && IsTarget(c, procs[z]) && procs[z].state.Dead?;
      var i :| 0 <= i < |all| && all[i] == z;
    }
    if FirstZombie(procs, all, c) < |all| { assert all[FirstZombie(procs, all, c)] in all; }
    forall id | id in all ensures exists i :: 0 <= i < |all| && all[i] == id { }
    forall i | 0 <= i < |all| ensures all[i] in all { }
  }

  lemma ZombieSame(procs: Procs, all: seq<int>, id: int, q: Process, c: Call)
    requires id in procs && SameRole(procs[id], q)
    ensures HasZombie(procs[id := q], all, c) <==> HasZombie(procs, all, c)
  {
    var procs' := procs[id := q];
    if HasZombie(procs, all, c) {
      var z :| z in all && z in procs && IsTarget(c, procs[z]) && procs[z].state.Dead?;
      assert z in procs' && IsTarget(c, procs'[z]) && procs'[z].state.Dead?;
    }
    if HasZombie(procs', all, c) {
      var z :| z in all && z in procs' && IsTarget(c, procs'[z]) && procs'[z].state.Dead?;
      assert z in procs && IsTarget(c, procs[z]) && procs[z].state.Dead?;
    }
  }

  ghost predicate NoTarget(procs: Procs, all: seq<int>, c: Call) {
    c.Wait? && forall id :: id in all && id in procs ==> !IsTarget(c, procs[id])
  }

  /** Who is a target does not depend on what processes are waiting for. */
  lemma SameTargets(procs: Procs, procs': Procs, all: seq<int>, c: Call)
    requires c.Wait? && procs.Keys == procs'.Keys
    requires forall id :: id in procs ==> procs'[id] == procs[id].(call := procs'[id].call)
    ensures HasZombie(procs', all, c) <==> HasZombie(procs, all, c)
    ensures NoTarget(procs', all, c) <==> NoTarget(procs, all, c)
  {
    forall id | id in procs ensures IsTarget(c, procs'[id]) <==> IsTarget(c, procs[id]) {}
  }

  function Without(all: seq<int>, j: nat): seq<int>
    requires j < |all|
  {
    all[..j] + all[j + 1..]
  }

  lemma WithoutHas(procs: Procs, all: seq<int>, nextPid: int, nextId: int, j: nat)
    requires Listed(procs, all, nextPid, nextId) && j < |all|
    ensures forall id :: id in Without(all, j) <==> id in all && id != all[j]
    ensures Listed(procs, Without(all, j), nextPid, nextId)
  {
    var after := Without(all, j);
    forall i | 0 <= i < |all| && i != j ensures all[i] in after && all[i] != all[j] {
      assert after[if i < j then i else i - 1] == all[i];
    }
    forall i | 0 <= i < |after| ensures after[i] == all[if i < j then i else i + 1] { }
  }

  /** Where the entry at index i is after index j was removed. */
  lemma WithoutAt(procs: Procs, all: seq<int>, nextPid: int, nextId: int, j: nat, i: nat)
    requires Listed(procs, all, nextPid, nextId) && j < |all| && i < |all| && i != j
    ensures var after := Without(all, j);
            if i < j then after[i] == all[i]
            else i > 0 && after[i - 1] == all[i] && (i < |after| ==> after[i] != all[i])
  {
    if j < i < |Without(all, j)| { assert procs[all[i]].pid < procs[all[i + 1]].pid; }
  }

  /** Dead processes leave the list, each once; nobody else leaves, dies or comes back. */
  ghost predicate Reaping(procs0: Procs, all0: seq<int>, reaped0: set<int>, procs: Procs, all: seq<int>,
                          reaped: set<int>)
  {
    && reaped0 <= reaped
    && (forall z :: z in reaped && z !in reaped0 ==> z in all0 && z in procs0 && procs0[z].state.Dead?)
    && (forall z :: z in all0 ==> z in all || z in reaped)
    && (forall z :: z in all ==>
          z in all0 && z in procs0 && z in procs && procs[z].state.Dead? == procs0[z].state.Dead?)
    && (forall z :: z in procs ==> z in procs0)
    && (forall z :: z in procs && z in procs0 && procs0[z].state.Dead? ==> procs[z] == procs0[z])
  }

  lemma AllListed(procs: Procs, all: seq<int>, ready: seq<int>, current: int, idle: int, nextPid: int, nextId: int,
                  reaped: set<int>)
    requires Inv(procs, all, ready, current, idle, nextPid, nextId)
    ensures Queueable(procs[idle].state)
    ensures Reaping(procs, all, reaped, procs, all, reaped)
  {
  }

  lemma ReapingSet(procs0: Procs, all0: seq<int>, reaped0: set<int>, procs: Procs, all: seq<int>, reaped: set<int>,
                   id: int, q: Process)
    requires Reaping(procs0, all0, reaped0, procs, all, reaped) && id in procs && !q.state.Dead?
             && !procs[id].state.Dead?
    ensures Reaping(procs0, all0, reaped0, procs[id := q], all, reaped)
  {
  }

  /** A zombie is taken out of the list for the process in whose place q is. */
  lemma ReapingOne(procs: Procs, all: seq<int>, reaped: set<int>, id: int, q: Process, j: nat, rest: seq<int>)
    requires Reaping(procs, all, reaped, procs, all, reaped) && id in procs && !q.state.Dead? && !procs[id].state.Dead?
    requires j < |all| && all[j] in procs && procs[all[j]].state.Dead?
    requires forall r :: r in rest <==> r in all && r != all[j]
    ensures Reaping(procs, all, reaped, procs[id := q], rest, reaped + {all[j]})
  {
  }

  /** The processes of a part of the list that had this parent have init as theirs. */
  ghost predicate Adopting(was: Procs, now: Procs, part: seq<int>, pid: int) {
    && now.Keys == was.Keys
    && forall id :: id in was && id in now ==>
         now[id] == if id in part && was[id].ppid == pid then was[id].(ppid := 1) else was[id]
  }

  lemma AdoptNone(procs: Procs, pid: int)
    ensures Adopting(procs, procs, [], pid)
  {
  }

  lemma AdoptOne(was: Procs, now: Procs, part: seq<int>, pid: int, it: int)
    requires Adopting(was, now, part, pid) && it in was && it !in part
    ensures it in now && now[it] == was[it]
    ensures Adopting(was, if now[it].ppid == pid then now[it := now[it].(ppid := 1)] else now, part + [it], pid)
  {
    assert it in was.Keys;
  }

  lemma ReapingFinished(procs: Procs, all: seq<int>, reaped: set<int>, id: int, q: Process, z: int)
    requires Reaping(procs, all, reaped, procs, all, reaped) && id in procs && z !in all
    requires q.state == procs[id].state && !q.state.Dead?
    ensures Reaping(procs, all, reaped, procs[id := q] - {z}, all, reaped)
  {
  }

  /** What the list of all processes looks like. */
  lemma ListFacts(procs: Procs, all: seq<int>, ready: seq<int>, current: int, idle: int, nextPid: int, nextId: int)
    requires Inv(procs, all, ready, current, idle, nextPid, nextId)
    ensures forall i {:trigger all[i]} :: 0 <= i < |all| ==> all[i] in procs && all[i] != nextId
    ensures forall i, j :: 0 <= i < j < |all| ==> procs[all[i]].pid < procs[all[j]].pid
    ensures forall i, j :: 0 <= i < j < |all| ==> all[i] != all[j]
    ensures forall id :: id in procs ==> id < nextId && procs[id].pid < nextPid
  {
  }

  lemma CurrentFacts(procs: Procs, all: seq<int>, ready: seq<int>, current: int, idle: int, nextPid: int, nextId: int)
    requires Inv(procs, all, ready, current, idle, nextPid, nextId)
    ensures current in procs && Queueable(procs[current].state) && procs[current].blocker.NoBlocker?
    ensures procs[current].call.Wait? && procs[current].call.interrupted ==> procs[current].call.waited.None?
    ensures idle in procs && procs[idle].call.NoCall? && Listed(procs, all, nextPid, nextId)
            && (current != idle ==> current in all)
    ensures idle !in all
  {
  }

  lemma {:induction false} HasLeast(s: set<nat>) returns (b: nat)
    requires s != {}
    ensures b in s && forall x :: x in s ==> b <= x
  {
    var y :| y in s;
    b := y;
    if s != {y} {
      assert s - {y} != {};
      var z := HasLeast(s - {y});
      if z < y { b := z; }
      assert forall x :: x in s ==> x == y || x in s - {y};
    }
  }

  lemma ReapingThen(procs0: Procs, all0: seq<int>, reaped0: set<int>, procs1: Procs, all1: seq<int>, reaped1: set<int>,
                    procs: Procs, all: seq<int>, reaped: set<int>)
    requires Reaping(procs0, all0, reaped0, procs1, all1, reaped1) && Reaping(procs1, all1, reaped1, procs, all, reaped)
    ensures Reaping(procs0, all0, reaped0, procs, all, reaped)
  {
  }

  // ----- one process changes -----

  /** q is p with the same identity and parent, alive or dead as p was, and with the same zombie in hand. */
  predicate SameRole(p: Process, q: Process) {
    && q.pid == p.pid && q.ppid == p.ppid && q.pgid == p.pgid && q.state.Dead? == p.state.Dead?
    && q.Holding() == p.Holding() && (p.Holding() ==> q.call == p.call)
  }

  lemma ParentStays(procs: Procs, all: seq<int>, id: int, q: Process, pid: int)
    requires id in procs && q.pid == procs[id].pid && (q.state.Dead? ==> procs[id].state.Dead?)
             && HasParent(procs, all, pid)
    ensures HasParent(procs[id := q], all, pid)
  {
    var r :| r in all && r in procs && procs[r].pid == pid && !procs[r].state.Dead?;
    assert r in procs[id := q] && procs[id := q][r].pid == pid && !procs[id := q][r].state.Dead?;
  }

  lemma FamilyStays(procs: Procs, all: seq<int>, id: int, q: Process)
    requires id in procs && SameRole(procs[id], q) && Family(procs, all)
    ensures Family(procs[id := q], all)
  {
    var procs' := procs[id := q];
    forall r | r in all && r in procs' ensures HasParent(procs', all, procs'[r].ppid) {
      assert HasParent(procs, all, procs[r].ppid);
      ParentStays(procs, all, id, q, procs[r].ppid);
    }
    ParentStays(procs, all, id, q, 1);
  }

  lemma ReapedStays(procs: Procs, all: seq<int>, idle: int, id: int, q: Process)
    requires id in procs && SameRole(procs[id], q) && Reaped(procs, all, idle)
    ensures Reaped(procs[id := q], all, idle)
  {
    var procs' := procs[id := q];
    forall z | z in procs' && z !in all && z != idle ensures HeldBySomeone(procs', z) {
      assert HeldBySomeone(procs, z);
      var r :| r in procs && procs[r].Holding() && procs[r].call.waited.value == z;
      assert r in procs' && procs'[r].Holding() && procs'[r].call.waited.value == z;
    }
  }

  lemma RoleStays(procs: Procs, all: seq<int>, idle: int, nextPid: int, nextId: int, id: int, q: Process)
    requires id in procs && SameRole(procs[id], q)
    requires Listed(procs, all, nextPid, nextId) && Family(procs, all) && Reaped(procs, all, idle) && Waiting(procs)
    requires q.state.Blocked? <==> !q.blocker.NoBlocker?
    requires q.blocker.OnWait? ==> q.call.Wait? && q.call.waited.None?
    requires q.blocker.OnOther? ==> q.call.NoCall?
    requires q.state.Dead? ==> q.call.NoCall?
    requires q.call.Wait? && q.call.interrupted ==> q.call.waited.None?
    ensures Listed(procs[id := q], all, nextPid, nextId) && Family(procs[id := q], all)
            && Reaped(procs[id := q], all, idle)
    ensures Waiting(procs[id := q])
  {
    FamilyStays(procs, all, id, q);
    ReapedStays(procs, all, idle, id, q);
    hide Family, Reaped;
  }

  // ----- the steps of the scheduler -----

  /** it->state = PROCESS_STATE_RUNNING and so on, in unblock_processes. */
  function Awoken(p: Process): Process {
    p.(state := Running, blocker := NoBlocker,
       call := if p.call.Wait? then p.call.(interrupted := p.signals != {}) else NoCall)
  }

  /** Whether unblock_processes wakes the blocked process id. */
  ghost predicate Unblocks(procs: Procs, all: seq<int>, id: int, awake: set<int>)
    requires id in procs && (procs[id].blocker.OnWait? ==> procs[id].call.Wait?)
    requires forall i {:trigger all[i]} :: 0 <= i < |all| ==> all[i] in procs
  {
    || procs[id].signals != {}
    || (procs[id].blocker.OnWait? && (FirstZombie(procs, all, procs[id].call) < |all|
                                      || !AnyTarget(procs, all, procs[id].call)))
    || (!procs[id].blocker.OnWait? && id in awake)
  }

  lemma BlockedFacts(procs: Procs, all: seq<int>, ready: seq<int>, current: int, idle: int, nextPid: int, nextId: int,
                     id: int)
    requires Inv(procs, all, ready, current, idle, nextPid, nextId) && id in all
    ensures id in procs && Listed(procs, all, nextPid, nextId)
    ensures procs[id].state.Blocked? ==>
              && SameRole(procs[id], Awoken(procs[id])) && !procs[id].blocker.NoBlocker?
              && (procs[id].blocker.OnWait? ==> procs[id].call.Wait? && procs[id].call.waited.None?)
              && (procs[id].blocker.OnOther? ==> procs[id].call.NoCall?)
  {
  }

  /** Blocked process id is unblocked and queued; q is what it has become. */
  lemma Woken(procs: Procs, all: seq<int>, ready: seq<int>, current: int, idle: int, nextPid: int, nextId: int, id: int,
              q: Process)
    requires Inv(procs, all, ready, current, idle, nextPid, nextId) && id in all && id in procs
             && procs[id].state.Blocked?
    requires SameRole(procs[id], q) && q.state.Running? && q.blocker.NoBlocker?
    requires q.call.Wait? && q.call.interrupted ==> q.call.waited.None?
    ensures Inv(procs[id := q], all, ready + [id], current, idle, nextPid, nextId) && id !in ready
  {
    hide Family, Reaped, Waiting;
    RoleStays(procs, all, idle, nextPid, nextId, id, q);
    forall i | 0 <= i < |ready| ensures ready[i] != id { }
  }

  lemma ZombieIs(procs: Procs, all: seq<int>, c: Call)
    requires c.Wait? && forall i {:trigger all[i]} :: 0 <= i < |all| ==> all[i] in procs
    ensures var j := FirstZombie(procs, all, c);
            j < |all| ==> all[j] in all && all[j] in procs && IsTarget(c, procs[all[j]]) && procs[all[j]].state.Dead?
  {
  }

  /** The running process goes to the end of the queue; nobody is running now. */
  lemma Requeued(procs: Procs, all: seq<int>, ready: seq<int>, current: int, idle: int, nextPid: int, nextId: int)
    requires Inv(procs, all, ready, current, idle, nextPid, nextId) && Queueable(procs[idle].state)
    ensures current != idle ==> Inv(procs, all, ready + [current], idle, idle, nextPid, nextId)
  {
    hide Listed, Family, Reaped, Waiting;
    forall i | 0 <= i < |ready| ensures ready[i] != current { }
  }

  /** The running process is blocked or idle; nobody is running now. */
  lemma Stopped(procs: Procs, all: seq<int>, ready: seq<int>, current: int, idle: int, nextPid: int, nextId: int,
                q: Process)
    requires Inv(procs, all, ready, current, idle, nextPid, nextId) && current != idle
    requires SameRole(procs[current], q) && q.state.Blocked? && !q.blocker.NoBlocker?
    requires q.call == procs[current].call
    requires q.blocker.OnWait? ==> q.call.Wait? && q.call.waited.None?
    requires q.blocker.OnOther? ==> q.call.NoCall?
    ensures Inv(procs[current := q], all, ready, idle, idle, nextPid, nextId)
  {
    hide Family, Reaped, Waiting;
    RoleStays(procs, all, idle, nextPid, nextId, current, q);
  }

  /** The head of the queue runs. */
  lemma Dispatched(procs: Procs, all: seq<int>, ready: seq<int>, idle: int, nextPid: int, nextId: int)
    requires Inv(procs, all, ready, idle, idle, nextPid, nextId) && ready != []
    ensures Inv(procs, all, ready[1..], ready[0], idle, nextPid, nextId)
  {
    hide Listed, Family, Reaped, Waiting;
    assert forall i :: 0 <= i < |ready[1..]| ==> ready[1..][i] == ready[i + 1];
    assert ready[0] in all && ready[0] in procs;
    forall id | id in all && id in procs && id != ready[0] && id !in ready[1..] ensures id !in ready {
      assert ready == [ready[0]] + ready[1..];
    }
  }

  /** The state of a process changes between those of the queue and the processor. */
  lemma Restated(procs: Procs, all: seq<int>, ready: seq<int>, current: int, idle: int, nextPid: int, nextId: int,
                 id: int, q: Process)
    requires Inv(procs, all, ready, current, idle, nextPid, nextId) && id in procs && SameRole(procs[id], q)
    requires Queueable(procs[id].state) <==> Queueable(q.state)
    requires q.state.Blocked? == procs[id].state.Blocked? && q.blocker == procs[id].blocker
    requires !q.blocker.NoBlocker? ==> q.call == procs[id].call
    requires q.state.Dead? ==> q.call.NoCall?
    requires q.call.Wait? && q.call.interrupted ==> q.call.waited.None?
    requires id == idle ==> q.call.NoCall?
    ensures Inv(procs[id := q], all, ready, current, idle, nextPid, nextId)
  {
    hide Family, Reaped;
    RoleStays(procs, all, idle, nextPid, nextId, id, q);
  }

  // ----- fork, exit and reaping -----

  lemma AllBelow(procs: Procs, all: seq<int>, nextPid: int, nextId: int)
    requires Listed(procs, all, nextPid, nextId)
    ensures forall i :: 0 <= i < |all| ==> procs[all[i]].pid < nextPid
  {
    forall i | 0 <= i < |all| ensures procs[all[i]].pid < nextPid {
      var id := all[i];
      assert id in procs;
    }
  }

  /** A child of the running process, in its place in the list and at the end of the queue. */
  lemma Born(procs: Procs, all: seq<int>, ready: seq<int>, current: int, idle: int, nextPid: int, nextId: int,
             q: Process, at: nat)
    requires Inv(procs, all, ready, current, idle, nextPid, nextId) && current != idle && at <= |all|
    requires q.pid == nextPid && q.ppid == procs[current].pid && q.state.Runnable? && q.blocker.NoBlocker?
             && q.call.NoCall?
    requires forall i :: 0 <= i < |all| ==> (procs[all[i]].pid < q.pid <==> i < at)
    ensures Inv(procs[nextId := q], all[..at] + [nextId] + all[at..], ready + [nextId], current, idle, nextPid + 1,
                nextId + 1)
  {
    hide Family, Reaped;
    AllBelow(procs, all, nextPid, nextId);
    assert |all| > 0 ==> procs[all[|all| - 1]].pid < q.pid;
    var procs', all' := procs[nextId := q], all + [nextId];
    assert all[..at] + [nextId] + all[at..] == all';
    assert nextId !in procs;
    assert forall i :: 0 <= i < |all| ==> all'[i] == all[i];
    BornPartition(procs, all, ready, current, idle, nextId, q);
    BornFamily(procs, all, nextId, q, current);
    BornReaped(procs, all, nextId, q, idle);
  }

  lemma BornPartition(procs: Procs, all: seq<int>, ready: seq<int>, current: int, idle: int, id: int, q: Process)
    requires Partition(procs, all, ready, current, idle) && id !in procs && q.state.Runnable?
    ensures Partition(procs[id := q], all + [id], ready + [id], current, idle)
  {
    var procs', all', ready' := procs[id := q], all + [id], ready + [id];
    forall i | 0 <= i < |ready| ensures ready[i] != id { assert ready[i] in procs; }
    forall i | 0 <= i < |ready'|
      ensures ready'[i] in all' && ready'[i] in procs' && ready'[i] != current && Queueable(procs'[ready'[i]].state)
    {
      if i < |ready| { assert ready'[i] == ready[i] && ready[i] in all; }
    }
    forall r | r in all' && r in procs' && r != current && r !in ready'
      ensures procs'[r].state.Blocked? || procs'[r].state.Dead?
    {
      assert r in all && r !in ready;
    }
  }

  lemma BornFamily(procs: Procs, all: seq<int>, id: int, q: Process, parent: int)
    requires Family(procs, all) && id !in procs && !q.state.Dead?
    requires parent in all && parent in procs && procs[parent].pid == q.ppid && !procs[parent].state.Dead?
    ensures Family(procs[id := q], all + [id])
  {
    var procs', all' := procs[id := q], all + [id];
    forall pid | HasParent(procs, all, pid) ensures HasParent(procs', all', pid) {
      var r :| r in all && r in procs && procs[r].pid == pid && !procs[r].state.Dead?;
      assert r in procs' && procs'[r] == procs[r] && r in all';
    }
    assert HasParent(procs, all, q.ppid);
    forall r | r in all' && r in procs' ensures HasParent(procs', all', procs'[r].ppid) {
      if r != id { assert HasParent(procs, all, procs[r].ppid); }
    }
  }

  lemma BornReaped(procs: Procs, all: seq<int>, id: int, q: Process, idle: int)
    requires Reaped(procs, all, idle) && id !in procs && q.call.NoCall?
    ensures Reaped(procs[id := q], all + [id], idle)
  {
    var procs', all' := procs[id := q], all + [id];
    forall z | z in procs' && z !in all' && z != idle ensures HeldBySomeone(procs', z) {
      assert HeldBySomeone(procs, z);
      var r :| r in procs && procs[r].Holding() && procs[r].call.waited.value == z;
      assert r in procs' && procs'[r] == procs[r];
    }
  }

  /** The orphans of the running process, adopted by init, and the process dead. */
  ghost predicate Adopted(procs: Procs, procs': Procs, all: seq<int>, me: int, q: Process)
    requires me in procs
  {
    && procs'.Keys == procs.Keys && me in procs' && procs'[me] == q
    && forall id :: id in procs && id in procs' && id != me ==>
         procs'[id] == if id in all && procs[id].ppid == procs[me].pid then procs[id].(ppid := 1) else procs[id]
  }

  lemma Died(procs: Procs, procs': Procs, all: seq<int>, ready: seq<int>, current: int, idle: int, nextPid: int,
             nextId: int, q: Process)
    requires Inv(procs, all, ready, current, idle, nextPid, nextId) && current != idle
    requires procs[current].pid != 1 && procs[current].call.NoCall? && Adopted(procs, procs', all, current, q)
    requires q.state.Dead? && q.blocker.NoBlocker? && q.call.NoCall? && q.pid == procs[current].pid
    requires q.ppid == if procs[current].ppid == procs[current].pid then 1 else procs[current].ppid
    ensures Inv(procs', all, ready, idle, idle, nextPid, nextId)
    ensures forall id :: id in all ==> id in procs' && procs'[id].ppid != procs[current].pid
  {
    hide Family, Reaped;
    assert forall id :: id in procs' <==> id in procs by {
      assert forall id :: id in procs'.Keys <==> id in procs.Keys;
    }
    DiedListed(procs, procs', all, current, q, nextPid, nextId);
    DiedFamily(procs, procs', all, current, q, nextPid, nextId);
    DiedReaped(procs, procs', all, current, q, idle);
    DiedPartition(procs, procs', all, ready, current, idle, q);
  }

  lemma DiedListed(procs: Procs, procs': Procs, all: seq<int>, me: int, q: Process, nextPid: int, nextId: int)
    requires Listed(procs, all, nextPid, nextId) && me in procs && Adopted(procs, procs', all, me, q)
    requires q.pid == procs[me].pid && forall id :: id in procs' <==> id in procs
    ensures Listed(procs', all, nextPid, nextId)
  {
    assert forall id :: id in procs ==> procs'[id].pid == procs[id].pid;
  }

  lemma DiedPartition(procs: Procs, procs': Procs, all: seq<int>, ready: seq<int>, current: int, idle: int, q: Process)
    requires Partition(procs, all, ready, current, idle) && Adopted(procs, procs', all, current, q) && current != idle
    requires q.state.Dead? && Queueable(procs[idle].state) && forall id :: id in procs' <==> id in procs
    ensures Partition(procs', all, ready, idle, idle)
  {
    assert forall id :: id in procs && id != current ==> procs'[id].state == procs[id].state;
  }

  lemma DiedFamily(procs: Procs, procs': Procs, all: seq<int>, me: int, q: Process, nextPid: int, nextId: int)
    requires Listed(procs, all, nextPid, nextId) && Family(procs, all) && me in procs && me in all && procs[me].pid != 1
    requires Adopted(procs, procs', all, me, q) && q.pid == procs[me].pid
    requires q.ppid == if procs[me].ppid == procs[me].pid then 1 else procs[me].ppid
    requires forall id :: id in procs' <==> id in procs
    ensures Family(procs', all) && forall id :: id in all ==> id in procs' && procs'[id].ppid != procs[me].pid
  {
    forall pid | HasParent(procs, all, pid) && pid != procs[me].pid ensures HasParent(procs', all, pid) {
      var r :| r in all && r in procs && procs[r].pid == pid && !procs[r].state.Dead?;
      assert r in procs' && procs'[r].pid == pid && procs'[r].state == procs[r].state;
    }
    forall r | r in all && r in procs' ensures HasParent(procs', all, procs'[r].ppid)
           && procs'[r].ppid != procs[me].pid {
      assert HasParent(procs, all, procs[r].ppid);
    }
  }

  lemma DiedReaped(procs: Procs, procs': Procs, all: seq<int>, me: int, q: Process, idle: int)
    requires Reaped(procs, all, idle) && me in procs && procs[me].call.NoCall? && q.call.NoCall? && q.state.Dead?
    requires Adopted(procs, procs', all, me, q) && me in all && forall id :: id in procs' <==> id in procs
    ensures Reaped(procs', all, idle)
  {
    forall p | p in procs' && procs'[p].Holding()
      ensures p in procs && procs[p].Holding() && procs[p].call == procs'[p].call && p != me { }
    forall z | z in procs && z !in all ensures procs'[z] == procs[z] { }
    forall z | z in procs' && z !in all && z != idle ensures HeldBySomeone(procs', z) {
      assert HeldBySomeone(procs, z);
      var r :| r in procs && procs[r].Holding() && procs[r].call.waited.value == z;
      assert r in procs' && procs'[r].Holding() && procs'[r].call.waited.value == z;
    }
  }

  /** The predicate of waitpid takes the dead process at index j out of the list, for caller id. */
  lemma Collected(procs: Procs, all: seq<int>, ready: seq<int>, current: int, idle: int, nextPid: int, nextId: int,
                  id: int, j: nat, q: Process)
    requires Inv(procs, all, ready, current, idle, nextPid, nextId) && id in all && id in procs && j < |all|
    requires procs[id].call.Wait? && procs[id].call.waited.None? && !procs[id].state.Dead?
             && procs[id].blocker.NoBlocker?
    requires !procs[id].call.interrupted
    requires all[j] in procs && procs[all[j]].state.Dead? && IsTarget(procs[id].call, procs[all[j]])
    requires q == procs[id].(call := procs[id].call.(waited := Some(all[j])))
    ensures Inv(procs[id := q], Without(all, j), ready, current, idle, nextPid, nextId)
    ensures forall r :: r in Without(all, j) <==> r in all && r != all[j]
  {
    hide Family, Reaped, Without;
    assert all[j] in all && all[j] != idle && all[j] != id;
    WithoutHas(procs, all, nextPid, nextId, j);
    CollectedFamily(procs, all, id, all[j], Without(all, j), q);
    CollectedReaped(procs, all, id, all[j], Without(all, j), q, idle);
    CollectedPartition(procs, all, ready, current, idle, id, all[j], Without(all, j), q);
    SamePids(procs, Without(all, j), nextPid, nextId, id, q);
  }

  lemma SamePids(procs: Procs, all: seq<int>, nextPid: int, nextId: int, id: int, q: Process)
    requires Listed(procs, all, nextPid, nextId) && id in procs && q.pid == procs[id].pid
    ensures Listed(procs[id := q], all, nextPid, nextId)
  {
  }

  lemma CollectedReaps(procs: Procs, all: seq<int>, ready: seq<int>, current: int, idle: int, nextPid: int, nextId: int,
                       reaped: set<int>, id: int, j: nat, q: Process)
    requires Inv(procs, all, ready, current, idle, nextPid, nextId) && id in procs && j < |all|
    requires all[j] in procs && procs[all[j]].state.Dead? && q.state == procs[id].state && !q.state.Dead?
    ensures Reaping(procs, all, reaped, procs[id := q], Without(all, j), reaped + {all[j]})
  {
    WithoutHas(procs, all, nextPid, nextId, j);
    assert all[j] in all;
  }

  lemma CollectedPartition(procs: Procs, all: seq<int>, ready: seq<int>, current: int, idle: int, id: int, z: int,
                           rest: seq<int>, q: Process)
    requires Partition(procs, all, ready, current, idle) && id in procs && q.state == procs[id].state
    requires z in procs && procs[z].state.Dead? && forall r :: r in rest <==> r in all && r != z
    ensures Partition(procs[id := q], rest, ready, current, idle)
  {
  }

  lemma CollectedFamily(procs: Procs, all: seq<int>, id: int, z: int, rest: seq<int>, q: Process)
    requires Family(procs, all) && id in procs && q.pid == procs[id].pid && q.ppid == procs[id].ppid
             && q.state == procs[id].state
    requires z in procs && procs[z].state.Dead? && forall r :: r in rest <==> r in all && r != z
    ensures Family(procs[id := q], rest)
  {
    var procs' := procs[id := q];
    forall pid | HasParent(procs, all, pid) ensures HasParent(procs', rest, pid) {
      var r :| r in all && r in procs && procs[r].pid == pid && !procs[r].state.Dead?;
      assert r in procs' && procs'[r].pid == pid && procs'[r].state == procs[r].state && r in rest;
    }
    forall r | r in rest && r in procs' ensures HasParent(procs', rest, procs'[r].ppid) {
      assert HasParent(procs, all, procs[r].ppid);
    }
  }

  lemma CollectedReaped(procs: Procs, all: seq<int>, id: int, z: int, rest: seq<int>, q: Process, idle: int)
    requires Reaped(procs, all, idle) && id in procs && id in all && z in procs && z in all && z != id && z != idle
    requires procs[z].state.Dead? && procs[z].call.NoCall? && !procs[id].Holding() && procs[id].call.Wait?
    requires IsTarget(procs[id].call, procs[z]) && forall r :: r in rest <==> r in all && r != z
    requires q == procs[id].(call := procs[id].call.(waited := Some(z)))
    ensures Reaped(procs[id := q], rest, idle)
  {
    var procs' := procs[id := q];
    forall p | p in procs' && procs'[p].Holding()
      ensures p == id || (procs[p].Holding() && procs'[p] == procs[p] && p != z) { }
    assert procs'[id].Holding() && procs'[z] == procs[z];
    forall r | r in procs' && r !in rest && r != idle ensures HeldBySomeone(procs', r) {
      if r == z {
        assert id in procs' && procs'[id].Holding() && procs'[id].call.waited.value == z;
      } else {
        assert HeldBySomeone(procs, r);
        var p :| p in procs && procs[p].Holding() && procs[p].call.waited.value == r;
        assert p in procs' && procs'[p].Holding() && procs'[p].call.waited.value == r;
      }
    }
  }

  /** waitpid returns: the zombie in hand is freed. */
  lemma Finished(procs: Procs, all: seq<int>, ready: seq<int>, current: int, idle: int, nextPid: int, nextId: int,
                 z: int, q: Process)
    requires Inv(procs, all, ready, current, idle, nextPid, nextId) && current != idle
    requires procs[current].Holding() && procs[current].call.waited.value == z && q == procs[current].(call := NoCall)
    ensures z in procs && z != current && z !in all && z !in ready && procs[z].state.Dead?
            && IsTarget(procs[current].call, procs[z])
    ensures Inv(procs[current := q] - {z}, all, ready, current, idle, nextPid, nextId)
  {
    forall i | 0 <= i < |ready| ensures ready[i] != z { assert ready[i] in all; }
    FinishedFamily(procs, all, current, z, q);
    FinishedReaped(procs, all, current, z, q, idle);
    hide Family, Reaped;
    FinishedRest(procs, all, ready, current, idle, nextPid, nextId, z, q);
  }

  lemma FinishedRest(procs: Procs, all: seq<int>, ready: seq<int>, current: int, idle: int, nextPid: int, nextId: int,
                     z: int, q: Process)
    requires Listed(procs, all, nextPid, nextId) && Partition(procs, all, ready, current, idle) && Waiting(procs)
    requires current != idle && z !in all && z != idle && q == procs[current].(call := NoCall)
    ensures var procs' := procs[current := q] - {z};
            Listed(procs', all, nextPid, nextId) && Partition(procs', all, ready, current, idle) && Waiting(procs')
  {
    var procs' := procs[current := q] - {z};
    assert forall id :: id in procs' ==>
             id in procs && procs'[id].pid == procs[id].pid && procs'[id].state == procs[id].state;
    assert forall id :: id in all && id in procs ==> id in procs';
  }

  lemma FinishedFamily(procs: Procs, all: seq<int>, me: int, z: int, q: Process)
    requires Family(procs, all) && me in procs && z !in all && q == procs[me].(call := NoCall)
    ensures Family(procs[me := q] - {z}, all)
  {
    var procs' := procs[me := q] - {z};
    forall pid | HasParent(procs, all, pid) ensures HasParent(procs', all, pid) {
      var r :| r in all && r in procs && procs[r].pid == pid && !procs[r].state.Dead?;
      assert r in procs' && procs'[r].pid == pid && procs'[r].state == procs[r].state;
    }
    forall r | r in all && r in procs' ensures HasParent(procs', all, procs'[r].ppid) {
      assert HasParent(procs, all, procs[r].ppid);
    }
  }

  lemma FinishedReaped(procs: Procs, all: seq<int>, me: int, z: int, q: Process, idle: int)
    requires Reaped(procs, all, idle) && me in procs && procs[me].Holding() && procs[me].call.waited.value == z
    requires q == procs[me].(call := NoCall)
    ensures Reaped(procs[me := q] - {z}, all, idle)
  {
    var procs' := procs[me := q] - {z};
    forall p | p in procs' && procs'[p].Holding()
      ensures p in procs && p != me && procs[p].Holding() && procs'[p] == procs[p]
              && procs[p].call.waited.value != z
    {
    }
    forall p | p in procs && p !in all ensures p != me { }
    forall r | r in procs' && r !in all && r != idle ensures HeldBySomeone(procs', r) {
      assert HeldBySomeone(procs, r);
      var p :| p in procs && procs[p].Holding() && procs[p].call.waited.value == r;
      assert p in procs' && procs'[p].Holding() && procs'[p].call.waited.value == r;
    }
  }

  /** One step of the walk of scheduler_unregister: at the process itself the walk
      unlinks it and stays where it is. */
  function Behind(all: seq<int>, id: int, i: nat): nat
    requires i < |all|
  {
    if all[i] != id then i + 1 else i
  }

  function Walk(all: seq<int>, id: int, i: nat, steps: nat): (r: nat)
    requires i <= |all|
    ensures i <= r <= |all|
    decreases steps
  {
    if steps == 0 || i == |all| then i else Walk(all, id, Behind(all, id, i), steps - 1)
  }

  lemma {:induction false} WalkBefore(all: seq<int>, id: int, i: nat, at: nat, steps: nat)
    requires i <= at < |all| && all[at] == id
    ensures Walk(all, id, i, steps) <= at
    decreases steps
  {
    if steps > 0 { WalkBefore(all, id, Behind(all, id, i), at, steps - 1); }
  }

  lemma {:induction false} WalkAlong(all: seq<int>, id: int, i: nat)
    requires i <= |all| && id !in all[i..]
    ensures Walk(all, id, i, |all| - i) == |all|
    decreases |all| - i
  {
    if i < |all| {
      assert all[i] in all[i..] && all[i + 1..] == all[i..][1..];
      WalkAlong(all, id, i + 1);
    }
  }

  /** scheduler_unregister ends exactly if the process is not in the list. */
  lemma UnregisterEnds(all: seq<int>, id: int)
    ensures (exists steps: nat :: Walk(all, id, 0, steps) == |all|) <==> id !in all
  {
    if id in all {
      var at :| 0 <= at < |all| && all[at] == id;
      forall steps: nat ensures Walk(all, id, 0, steps) != |all| { WalkBefore(all, id, 0, at, steps); }
    } else {
      WalkAlong(all, id, 0);
    }
  }

  lemma Signalled(procs: Procs, all: seq<int>, ready: seq<int>, current: int, idle: int, nextPid: int, nextId: int,
                  id: int, q: Process)
    requires Inv(procs, all, ready, current, idle, nextPid, nextId) && id in all && id in procs
    requires q == procs[id].(signals := q.signals)
    ensures Inv(procs[id := q], all, ready, current, idle, nextPid, nextId)
  {
    hide Family, Reaped;
    RoleStays(procs, all, idle, nextPid, nextId, id, q);
  }

  /** A listed process is in nobody's hands, so its group may change. */
  lemma Regrouped(procs: Procs, all: seq<int>, ready: seq<int>, current: int, idle: int, nextPid: int, nextId: int,
                  id: int, q: Process)
    requires Inv(procs, all, ready, current, idle, nextPid, nextId) && id in all && id in procs
    requires q == procs[id].(pgid := q.pgid)
    ensures Inv(procs[id := q], all, ready, current, idle, nextPid, nextId)
  {
    RegroupedFamily(procs, all, id, q);
    RegroupedReaped(procs, all, idle, id, q);
    hide Family, Reaped;
  }

  lemma RegroupedFamily(procs: Procs, all: seq<int>, id: int, q: Process)
    requires Family(procs, all) && id in procs && q == procs[id].(pgid := q.pgid)
    ensures Family(procs[id := q], all)
  {
    var procs' := procs[id := q];
    forall r | r in all && r in procs' ensures HasParent(procs', all, procs'[r].ppid) {
      assert HasParent(procs, all, procs[r].ppid);
      ParentStays(procs, all, id, q, procs[r].ppid);
    }
    ParentStays(procs, all, id, q, 1);
  }

  lemma RegroupedReaped(procs: Procs, all: seq<int>, idle: int, id: int, q: Process)
    requires Reaped(procs, all, idle) && id in procs && id in all && q == procs[id].(pgid := q.pgid)
    ensures Reaped(procs[id := q], all, idle)
  {
    var procs' := procs[id := q];
    forall z | z in procs' && z !in all && z != idle ensures HeldBySomeone(procs', z) {
      assert HeldBySomeone(procs, z);
      var r :| r in procs && procs[r].Holding() && procs[r].call.waited.value == z;
      assert r in procs' && procs'[r].Holding() && procs'[r].call.waited.value == z;
    }
  }

  /** A zombie outlives a step in which nobody finishes waiting. */
  lemma ZombieKept(procs0: Procs, all0: seq<int>, reaped0: set<int>, procs: Procs, all: seq<int>, reaped: set<int>,
                   z: int)
    requires Reaping(procs0, all0, reaped0, procs, all, reaped) && z in procs0 && procs0[z].state.Dead?
    ensures z in procs ==> procs[z] == procs0[z]
  {
  }

  // ----- bounded waiting -----

  datatype Queue = Queue(ready: seq<int>, current: int)

  /** The queue is first in first out: with one switch its head gets the processor,
      without one it only grows. */
  predicate QueueStep(q0: Queue, q: Queue, switched: bool) {
    if !switched then q0.ready <= q.ready && q.current == q0.current
    else q0.ready != [] ==> q.current == q0.ready[0] && q0.ready[1..] <= q.ready
  }

  ghost predicate QueueRun(run: seq<Queue>, switched: seq<bool>) {
    |run| == |switched| + 1 && forall i {:trigger switched[i]} :: 0 <= i < |switched| ==>
      QueueStep(run[i], run[i + 1], switched[i])
  }

  /** The number of switches in the first i steps. */
  function Switches(switched: seq<bool>, i: nat): (n: nat)
    requires i <= |switched|
    ensures n <= i
  {
    if i == 0 then 0 else Switches(switched, i - 1) + if switched[i - 1] then 1 else 0
  }

  /** A process at position k stays queued, and moves up by one with every switch. */
  lemma {:induction false} QueuePosition(run: seq<Queue>, switched: seq<bool>, k: nat, i: nat)
    requires QueueRun(run, switched) && k < |run[0].ready| && i <= |switched| && Switches(switched, i) <= k
    ensures k - Switches(switched, i) < |run[i].ready| && run[i].ready[k - Switches(switched, i)] == run[0].ready[k]
  {
    if i > 0 {
      QueuePosition(run, switched, k, i - 1);
      assert QueueStep(run[i - 1], run[i], switched[i - 1]);
      if switched[i - 1] {
        assert run[i - 1].ready[1..][k - Switches(switched, i)] == run[i - 1].ready[k - Switches(switched, i - 1)];
      }
    }
  }

  /** Bounded waiting: whatever the processes do, the one at position k runs after
      exactly k + 1 switches, and is queued until then. */
  lemma BoundedWaiting(run: seq<Queue>, switched: seq<bool>, k: nat, i: nat)
    requires QueueRun(run, switched) && k < |run[0].ready| && i < |switched|
    requires switched[i] && Switches(switched, i) == k
    ensures run[i + 1].current == run[0].ready[k]
    ensures forall j :: 0 <= j <= i ==> run[0].ready[k] in run[j].ready
  {
    QueuePosition(run, switched, k, i);
    assert QueueStep(run[i], run[i + 1], switched[i]);
    forall j | 0 <= j <= i ensures run[0].ready[k] in run[j].ready {
      SwitchesGrow(switched, j, i);
      QueuePosition(run, switched, k, j);
    }
  }

  lemma {:induction false} SwitchesGrow(switched: seq<bool>, j: nat, i: nat)
    requires j <= i <= |switched|
    ensures Switches(switched, j) <= Switches(switched, i)
  {
    if j < i { SwitchesGrow(switched, j, i - 1); }
  }
}
