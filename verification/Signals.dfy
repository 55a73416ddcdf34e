/** Signals with their default dispositions, and what sending one does to a process
    (kernel/process.c, kernel/api/signum.h). */
module Signals {
  import opened Processes

  const SIGCHLD := 17
  const SIGCONT := 18
  const SIGTTOU := 22
  const SIGURG := 23
  const SIGWINCH := 28
  const NSIG := 32

  /** Dumping core is not told apart from terminating. */
  datatype Disposition = Terminates | Ignored | Unsupported

  /** get_default_disposition_for_signal. There is no signal 0, and those that stop or continue a
      process are not implemented: the source panics. */
  function DefaultOf(signum: int): Disposition
    requires 0 <= signum < NSIG
  {
    if signum == SIGCHLD || signum == SIGURG || signum == SIGWINCH then Ignored
    else if signum == 0 || SIGCONT <= signum <= SIGTTOU then Unsupported
    else Terminates
  }

  datatype SignalResult = Sent | BadSignal | NoProcess | Panics

  /** What sending a signal to a process comes to, whatever the process. */
  function Reply(signum: int): SignalResult {
    if !(0 <= signum < NSIG) then BadSignal
    else if DefaultOf(signum).Unsupported? then Panics
    else Sent
  }

  predicate Deadly(signum: int) {
    0 <= signum < NSIG && DefaultOf(signum).Terminates?
  }

  /** Whom kill is after: a process, the group of the caller, all but init, or a group. */
  predicate Addressed(pid: int, caller: Process, p: Process) {
    if pid > 0 then p.pid == pid
    else if pid == 0 then p.pgid == caller.pgid
    else if pid == -1 then p.pid > 1
    else p.pgid == -pid
  }

  /** All pending signals have been handled, the lowest first: the status names the highest. */
  ghost predicate Doomed(p: Process, q: Process) {
    exists b: nat :: b in p.signals && (forall x :: x in p.signals ==> x <= b)
                     && q == p.(signals := {}, state := Dying, status := b % 256)
  }

  /** The signal is pending; if the process is running, it has been told to die. */
  ghost predicate Struck(p: Process, q: Process, running: bool, signum: nat) {
    var r := p.(signals := p.signals + {signum});
    if running then Doomed(r, q) else q == r
  }

  /** Signals have been handled up to b. */
  ghost predicate HandledTo(p: Process, q: Process, b: nat) {
    && b in p.signals && q.signals <= p.signals && q == p.(signals := q.signals, state := Dying, status := b % 256)
    && (forall x :: x in p.signals ==> x in q.signals || x <= b)
    && (forall x :: x in q.signals ==> x > b)
  }

  lemma HandledNext(p: Process, q: Process, b: nat)
    requires p == q || exists last :: HandledTo(p, q, last)
    requires b in q.signals && forall x :: x in q.signals ==> b <= x
    ensures HandledTo(p, q.(signals := q.signals - {b}, state := Dying, status := b % 256), b)
  {
  }

  lemma HandledAll(p: Process, q: Process)
    requires q.signals == {} && if p.signals == {} then p == q else p == q || exists last :: HandledTo(p, q, last)
    ensures if p.signals == {} then p == q else Doomed(p, q) && q.state.Dying?
  {
  }

  /** What kill does to the table. */
  ghost predicate Killed(procs: Procs, procs': Procs, listed: seq<int>, current: int, pid: int, caller: Process,
                         signum: int)
  {
    && procs'.Keys == procs.Keys
    && forall id :: id in procs ==>
         if id in listed && Deadly(signum) && Addressed(pid, caller, procs[id])
         then Struck(procs[id], procs'[id], id == current, signum)
         else procs'[id] == procs[id]
  }

  lemma NotSent(signum: int)
    requires Reply(signum) != Sent
    ensures !Deadly(signum)
  {
  }

  /** No process is listed twice. */
  lemma FirstTime(procs: Procs, all: seq<int>, nextPid: int, nextId: int, i: nat)
    requires Listed(procs, all, nextPid, nextId) && i < |all|
    ensures all[i] !in all[..i] && all[i] in procs
  {
  }

  ghost predicate AnyAddressed(procs: Procs, listed: seq<int>, pid: int, caller: Process) {
    exists id :: id in listed && id in procs && Addressed(pid, caller, procs[id])
  }
}
