/** The recursive mutex (kernel/lock.c): a flag taken by compare-and-exchange guards
    the holder and the nesting level. Every method is one access to the shared fields;
    any number of processes run theirs in any order. */
module Mutex {

  datatype Holder = Nobody | By(pid: int)

  /** Where a process is in mutex_lock or mutex_unlock; Outside is neither. */
  datatype Place = Outside | Locking | Testing | Taking | Counting | Leaving | Refused
                 | Unlocking | Checking | Clearing | Releasing

  /** depth: how many more locks than unlocks the process has returned from. */
  datatype Process = Process(at: Place, depth: nat)

  type Processes = map<int, Process>

  /** Between winning the flag and giving it back. */
  predicate InSection(p: Place) {
    p.Testing? || p.Taking? || p.Counting? || p.Leaving? || p.Refused? || p.Checking? || p.Clearing? || p.Releasing?
  }

  /** What holder and level say, as process me in the section sees it. */
  predicate Agrees(holder: Holder, level: nat, me: int, p: Process) {
    match p.at
    case Refused => holder.By? && holder != By(me) && p.depth == 0
    case Testing | Checking => (holder == By(me) <==> p.depth > 0) && (p.depth > 0 ==> level == p.depth)
    case Taking => (holder == Nobody && p.depth == 0) || (holder == By(me) && level == p.depth > 0)
    case Counting => holder == By(me) && level == p.depth
    case Leaving => holder == By(me) && level == p.depth + 1
    case Clearing => holder == By(me) && p.depth == 1 && level == 0
    case Releasing => p.depth > 0 && level == p.depth - 1 && holder == if level == 0 then Nobody else By(me)
    case _ => true
  }

  /** The flag is taken exactly while one process is in the section; a process that is
      in no section has its depth as level if it is the holder, and is not inside if it is not. */
  ghost predicate Inv(flag: bool, inside: Holder, holder: Holder, level: nat, procs: Processes) {
    && (flag <==> inside.By?)
    && (inside.By? ==> inside.pid in procs)
    && (forall p :: p in procs ==> (InSection(procs[p].at) <==> inside == By(p)))
    && (forall p :: p in procs && InSection(procs[p].at) ==> Agrees(holder, level, p, procs[p]))
    && (forall p :: p in procs && procs[p].depth > 0 && !procs[p].at.Releasing? ==> holder == By(p))
    && (forall p :: p in procs && (procs[p].at.Unlocking? || procs[p].at.Checking?) ==> procs[p].depth > 0)
    && (holder.By? ==> holder.pid in procs && (InSection(procs[holder.pid].at) || procs[holder.pid].depth == level > 0))
    && (flag || (holder.Nobody? <==> level == 0))
    && (holder.Nobody? ==> level == 0)
  }

  class Mutex {
    var lock: bool
    var holder: Holder
    var level: nat
    ghost var inside: Holder
    ghost var procs: Processes

    ghost predicate Valid()
      reads this
    {
      Inv(lock, inside, holder, level, procs)
    }

    constructor (pids: set<int>)
      ensures Valid() && procs == map p | p in pids :: Process(Outside, 0)
    {
      lock, inside, holder, level, procs := false, Nobody, Nobody, 0, map p | p in pids :: Process(Outside, 0);
    }

    /** Mutual exclusion, and what holder and level mean outside the section. */
    lemma Exclusive(p: int, q: int)
      requires Valid() && p in procs && q in procs && procs[p].depth > 0 && procs[q].depth > 0
      ensures p == q && (!lock ==> holder == By(p) && level == procs[p].depth)
    {
    }

    lemma NobodyIffZero()
      requires Valid() && !lock
      ensures holder.Nobody? <==> level == 0
      ensures holder.Nobody? <==> forall p :: p in procs ==> procs[p].depth == 0
    {
      if holder.By? { assert holder.pid in procs; }
    }

    // ----- mutex_lock -----

    method BeginLock(ghost me: int)
      requires Valid() && me in procs && procs[me].at.Outside?
      modifies this`procs
      ensures Valid() && procs == old(procs)[me := Process(Locking, old(procs[me].depth))]
    {
      procs := procs[me := procs[me].(at := Locking)];
    }

    /** The compare-and-exchange, of either call; a loser yields and tries again. */
    method CompareExchange(ghost me: int) returns (won: bool)
      requires Valid() && me in procs && (procs[me].at.Locking? || procs[me].at.Unlocking?)
      modifies this`lock, this`inside, this`procs
      ensures Valid() && lock && won == !old(lock)
      ensures var at := if old(procs[me].at).Locking? then Testing else Checking;
              procs == if won then old(procs)[me := old(procs[me]).(at := at)] else old(procs)
    {
      won := !lock;
      if won {
        lock, inside := true, By(me);
        procs := procs[me := procs[me].(at := if procs[me].at.Locking? then Testing else Checking)];
      }
    }

    /** Is the mutex free or already ours? */
    method Test(me: int) returns (mine: bool)
      requires Valid() && me in procs && procs[me].at.Testing?
      modifies this`procs
      ensures Valid() && mine == (holder.Nobody? || holder == By(me))
      ensures procs == old(procs)[me := old(procs[me]).(at := if mine then Taking else Refused)]
    {
      mine := holder.Nobody? || holder == By(me);
      procs := procs[me := procs[me].(at := if mine then Taking else Refused)];
    }

    method SetHolder(me: int)
      requires Valid() && me in procs && procs[me].at.Taking?
      modifies this`holder, this`procs
      ensures Valid() && holder == By(me) && procs == old(procs)[me := old(procs[me]).(at := Counting)]
    {
      holder := By(me);
      procs := procs[me := procs[me].(at := Counting)];
    }

    method CountUp(ghost me: int)
      requires Valid() && me in procs && procs[me].at.Counting?
      modifies this`level, this`procs
      ensures Valid() && level == old(level) + 1 && procs == old(procs)[me := old(procs[me]).(at := Leaving)]
    {
      level := level + 1;
      procs := procs[me := procs[me].(at := Leaving)];
    }

    /** The flag is given back, and mutex_lock returns. */
    method ReturnLocked(ghost me: int)
      requires Valid() && me in procs && procs[me].at.Leaving?
      modifies this`lock, this`inside, this`procs
      ensures Valid() && !lock && procs == old(procs)[me := Process(Outside, old(procs[me].depth) + 1)]
    {
      lock, inside := false, Nobody;
      procs := procs[me := Process(Outside, procs[me].depth + 1)];
    }

    /** The flag is given back, for another try. */
    method BackOff(ghost me: int)
      requires Valid() && me in procs && procs[me].at.Refused?
      modifies this`lock, this`inside, this`procs
      ensures Valid() && !lock && procs == old(procs)[me := old(procs[me]).(at := Locking)]
    {
      lock, inside := false, Nobody;
      procs := procs[me := procs[me].(at := Locking)];
    }

    // ----- mutex_unlock -----

    /** Only a process that is inside calls it. */
    method BeginUnlock(ghost me: int)
      requires Valid() && me in procs && procs[me].at.Outside? && procs[me].depth > 0
      modifies this`procs
      ensures Valid() && procs == old(procs)[me := old(procs[me]).(at := Unlocking)]
    {
      procs := procs[me := procs[me].(at := Unlocking)];
    }

    /** The two assertions of mutex_unlock hold. */
    method CheckAndCount(me: int) returns (last: bool)
      requires Valid() && me in procs && procs[me].at.Checking?
      modifies this`level, this`procs
      ensures old(holder) == By(me) && old(level) > 0
      ensures Valid() && level == old(level) - 1 && last == (level == 0)
      ensures procs == old(procs)[me := old(procs[me]).(at := if last then Clearing else Releasing)]
    {
      assert holder == By(me);
      assert level > 0;
      level := level - 1;
      last := level == 0;
      procs := procs[me := procs[me].(at := if last then Clearing else Releasing)];
    }

    method ClearHolder(ghost me: int)
      requires Valid() && me in procs && procs[me].at.Clearing?
      modifies this`holder, this`procs
      ensures Valid() && holder == Nobody && procs == old(procs)[me := old(procs[me]).(at := Releasing)]
    {
      holder := Nobody;
      procs := procs[me := procs[me].(at := Releasing)];
    }

    method ReturnUnlocked(ghost me: int)
      requires Valid() && me in procs && procs[me].at.Releasing?
      modifies this`lock, this`inside, this`procs
      ensures Valid() && !lock && procs == old(procs)[me := Process(Outside, old(procs[me].depth) - 1)]
    {
      lock, inside := false, Nobody;
      procs := procs[me := Process(Outside, procs[me].depth - 1)];
    }
  }
}
