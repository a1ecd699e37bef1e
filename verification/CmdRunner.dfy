/** Running a shell command with a timeout per attempt and a number of retries. */
module CmdRunner {
  import opened CTypes

  // ----- the environment -----

  /** One answer of waitpid with WNOHANG: still running, interrupted by a signal, the child's status, or an error. */
  datatype Poll = Running | Interrupted | Ended(status: int32) | WaitFailed

  predicate Final(p: Poll) {
    p.Ended? || p.WaitFailed?
  }

  /**
    * Everything the system answers: `poll(a, k)` is the k-th poll of the a-th child, `patience` a poll that is final
    * when the call sets no timeout, the rest whether fork, kill, the blocking wait and the signal calls succeed.
    */
  datatype Env = Env(
    poll: (nat, nat) -> Poll, patience: nat, forkOk: nat -> bool, killOk: nat -> bool, reapOk: nat -> bool,
    setInt: bool, setQuit: bool, block: bool, unblock: bool, restoreInt: bool, restoreQuit: bool)

  /** With a timeout anything may happen; without one the code waits for a command that must end by itself. */
  ghost predicate CommandEnds(env: Env, timeout: int) {
    timeout > 0 || forall a: nat :: Final(env.poll(a, env.patience))
  }

  // ----- attempts -----

  /** How an attempt ends. `NoChild`: fork failed and the process exits. */
  datatype AttemptEnd = Reaped(status: int32) | WaitError | TimedOut(killed: bool, waited: bool) | NoChild

  /** The attempt from its k-th poll on. */
  function Polled(env: Env, timeout: int, a: nat, k: nat): (end: AttemptEnd)
    requires if timeout > 0 then k < timeout else k <= env.patience && Final(env.poll(a, env.patience))
    ensures !end.NoChild?
    decreases if timeout > 0 then timeout - k else env.patience - k
  {
    match env.poll(a, k)
    case Ended(status) => Reaped(status)
    case WaitFailed => WaitError
    case _ =>
      if timeout > 0 && k + 1 >= timeout then TimedOut(env.killOk(a), env.killOk(a) && env.reapOk(a))
      else Polled(env, timeout, a, k + 1)
  }

  function Attempt(env: Env, timeout: int, a: nat): AttemptEnd
    requires CommandEnds(env, timeout)
  {
    if env.forkOk(a) then Polled(env, timeout, a, 0) else NoChild
  }

  /** The attempts from the a-th on: another one only after a timeout, and never more than `tries` retries. */
  function Attempts(env: Env, timeout: int, tries: int, a: nat): seq<AttemptEnd>
    requires CommandEnds(env, timeout)
    decreases tries - a
  {
    if a > tries then []
    else
      var end := Attempt(env, timeout, a);
      [end] + if end.TimedOut? then Attempts(env, timeout, tries, a + 1) else []
  }

  /** Children that are never waited for. */
  function Unreaped(ends: seq<AttemptEnd>): set<nat> {
    set a | 0 <= a < |ends| && LeavesChild(ends[a])
  }

  function FinalStatus(ends: seq<AttemptEnd>): int32 {
    if ends == [] then RL_SUCCESS
    else
      var last := ends[|ends|-1];
      if last.Reaped? then last.status else RL_FAILED
  }

  /** The low seven bits of a wait status: 0 for a normal exit, the signal for a killed child, 127 for neither. */
  function TermBits(status: int32): nat {
    status % 128
  }

  function Decode(status: int32): int32 {
    if TermBits(status) == 0 then RL_SUCCESS
    else if TermBits(status) < 127 then 0 - TermBits(status)
    else RL_FAILED
  }

  /** The sleeps of one attempt from its k-th poll on: with a timeout, one after every poll that settles nothing. */
  function Sleeps(env: Env, timeout: int, a: nat, k: nat): nat
    requires if timeout > 0 then k < timeout else k <= env.patience && Final(env.poll(a, env.patience))
    decreases if timeout > 0 then timeout - k else env.patience - k
  {
    if timeout <= 0 || Final(env.poll(a, k)) then 0
    else if k + 1 >= timeout then 1
    else 1 + Sleeps(env, timeout, a, k + 1)
  }

  /** The sleeps of the first `n` attempts. */
  function AllSleeps(env: Env, timeout: int, n: nat): nat
    requires CommandEnds(env, timeout)
  {
    if n == 0 then 0
    else AllSleeps(env, timeout, n - 1) + if env.forkOk(n - 1) then Sleeps(env, timeout, n - 1, 0) else 0
  }

  // ----- signal state -----

  datatype Disposition = Default | Ignore | Handler(id: nat)

  const SIGCHLD: nat := 17

  datatype Signals = Signals(int_: Disposition, quit: Disposition, chld: Disposition, mask: set<nat>)

  /** The signal state a returning call leaves behind. */
  function SignalsAfter(b: Signals, env: Env): Signals {
    if !env.setInt then b
    else if !env.setQuit then b.(int_ := Ignore)
    else if !env.block then b.(int_ := Ignore, quit := Ignore)
    else if !env.unblock then Signals(Ignore, Ignore, Default, b.mask + {SIGCHLD})
    else if !env.restoreInt then b.(int_ := Ignore, quit := Ignore)
    else if !env.restoreQuit then b.(quit := Ignore)
    else b
  }

  predicate SetupOk(env: Env) {
    env.setInt && env.setQuit && env.block
  }

  predicate RestoreOk(env: Env) {
    env.unblock && env.restoreInt && env.restoreQuit
  }

  /** What the caller gets: a code, or nothing because the process has exited. */
  datatype RunEnd = Returned(code: int32) | Exited

  function Result(env: Env, ends: seq<AttemptEnd>): RunEnd {
    if !SetupOk(env) then Returned(RL_FAILED)
    else if ends != [] && ends[|ends|-1].NoChild? then Exited
    else if !RestoreOk(env) then Returned(RL_FAILED)
    else Returned(Decode(FinalStatus(ends)))
  }

  // ----- the code -----

  class Process {
    var signals: Signals
    // Bookkeeping of the model: the attempts of the last call, the children it has not waited for, all sleeps.
    ghost var ends: seq<AttemptEnd>
    var sleeps: nat
    var unreaped: set<nat>

    constructor (signals: Signals)
      ensures this.signals == signals
    {
      this.signals := signals;
      ends, sleeps, unreaped := [], 0, {};
    }

    /** The poll loop of one attempt, whose child is `a`. */
    method Await(env: Env, timeout: int32, a: nat) returns (status: int32, needRetry: bool, ghost end: AttemptEnd)
      requires CommandEnds(env, timeout) && a in unreaped
      modifies this`sleeps, this`unreaped
      ensures end == Polled(env, timeout, a, 0)
      ensures needRetry == end.TimedOut? && status == FinalStatus([end])
      ensures unreaped == if LeavesChild(end) then old(unreaped) else old(unreaped) - {a}
      ensures sleeps == old(sleeps) + Sleeps(env, timeout, a, 0)
    {
      var leftTime: int := timeout;
      var k: nat := 0;
      while true
        invariant timeout > 0 ==> leftTime == timeout - k && k < timeout
        invariant timeout <= 0 ==> k <= env.patience && Final(env.poll(a, env.patience))
        invariant Polled(env, timeout, a, 0) == Polled(env, timeout, a, k)
        invariant sleeps + Sleeps(env, timeout, a, k) == old(sleeps) + Sleeps(env, timeout, a, 0)
        invariant unreaped == old(unreaped)
        decreases if timeout > 0 then timeout - k else env.patience - k
      {
        end := Polled(env, timeout, a, k);
        var rv := env.poll(a, k);
        if rv.Ended? {
          unreaped := unreaped - {a};
          return rv.status, false, end;
        }
        if rv.WaitFailed? {
          return RL_FAILED, false, end;
        }
        if timeout > 0 {
          sleeps := sleeps + 1;
          leftTime := leftTime - 1;
          if leftTime <= 0 {
            if env.killOk(a) && env.reapOk(a) {
              unreaped := unreaped - {a};
            }
            return RL_FAILED, true, end;
          }
        }
        k := k + 1;
      }
    }

    /** The attempt loop; `exited` is whether a failing fork has ended the process. */
    method Retry(env: Env, timeout: int32, tries: int32) returns (status: int32, exited: bool)
      requires CommandEnds(env, timeout) && unreaped == {}
      modifies this`sleeps, this`unreaped, this`ends
      ensures ends == Attempts(env, timeout, tries, 0)
      ensures exited == (ends != [] && ends[|ends|-1].NoChild?) && status == FinalStatus(ends)
      ensures unreaped == Unreaped(ends)
      ensures sleeps == old(sleeps) + AllSleeps(env, timeout, |ends|)
    {
      hide Polled, Unreaped, Attempts, Attempt, Sleeps, AllSleeps;
      status, exited, ends := RL_SUCCESS, false, [];
      NoAttempt(env, timeout, tries);
      var needRetry := true;
      var i: int := -1;
      while i < tries && needRetry
        invariant |ends| == i + 1
        invariant Attempts(env, timeout, tries, 0)
               == ends + if needRetry then Attempts(env, timeout, tries, i + 1) else []
        invariant status == FinalStatus(ends) && unreaped == Unreaped(ends)
        invariant ends != [] ==> needRetry == ends[i].TimedOut? && !ends[i].NoChild?
        invariant sleeps == old(sleeps) + AllSleeps(env, timeout, |ends|)
        decreases tries - i, needRetry
      {
        ghost var before := ends;
        OneAttempt(env, timeout, tries, i + 1, before);
        if !env.forkOk(i + 1) {
          ends := ends + [NoChild];
          OneMore(before, NoChild);
          return RL_FAILED, true;
        }
        unreaped := unreaped + {i + 1};
        ghost var end;
        status, needRetry, end := Await(env, timeout, i + 1);
        ends := ends + [end];
        OneMore(before, end);
        i := i + 1;
      }
    }

    /** rl_system_100ms_ex: setup of the signal state, the attempts, and its restoration. */
    method RunCommand(cmd: string, timeout: int32, tries: int32, env: Env) returns (r: RunEnd)
      requires CommandEnds(env, timeout)
      modifies this
      ensures cmd == "" ==> r == Returned(RL_FAILED) && signals == old(signals) && ends == [] && unreaped == {}
      ensures cmd != "" ==>
                && r == Result(env, Attempts(env, timeout, tries, 0))
                && ends == (if SetupOk(env) then Attempts(env, timeout, tries, 0) else [])
                && unreaped == Unreaped(ends)
                && sleeps == old(sleeps) + AllSleeps(env, timeout, |ends|)
                && (r.Returned? ==> signals == SignalsAfter(old(signals), env))
    {
      ends, unreaped := [], {};
      if cmd == "" {
        return Returned(RL_FAILED);
      }
      if !env.setInt {
        return Returned(RL_FAILED);
      }
      var saveInt := signals.int_;
      signals := signals.(int_ := Ignore);
      if !env.setQuit {
        return Returned(RL_FAILED);
      }
      var saveQuit := signals.quit;
      signals := signals.(quit := Ignore);
      if !env.block {
        return Returned(RL_FAILED);
      }
      var saveMask := signals.mask;
      signals := signals.(mask := signals.mask + {SIGCHLD});
      var oldHandler := signals.chld;
      signals := signals.(chld := Default);
      var status, exited := Retry(env, timeout, tries);
      if exited {
        return Exited;
      }
      if !env.unblock {
        return Returned(RL_FAILED);
      }
      signals := signals.(mask := saveMask);
      signals := signals.(chld := oldHandler);
      if !env.restoreInt {
        return Returned(RL_FAILED);
      }
      signals := signals.(int_ := saveInt);
      if !env.restoreQuit {
        return Returned(RL_FAILED);
      }
      signals := signals.(quit := saveQuit);
      return Returned(Decode(status));
    }
  }

  predicate LeavesChild(end: AttemptEnd) {
    end.WaitError? || (end.TimedOut? && !end.waited)
  }

  lemma NoAttempt(env: Env, timeout: int, tries: int)
    requires CommandEnds(env, timeout)
    ensures Unreaped([]) == {} && AllSleeps(env, timeout, 0) == 0
    ensures forall a: nat :: a > tries ==> Attempts(env, timeout, tries, a) == []
  {
  }

  lemma OneAttempt(env: Env, timeout: int, tries: int, a: nat, before: seq<AttemptEnd>)
    requires CommandEnds(env, timeout) && a <= tries
    ensures var end := if env.forkOk(a) then Polled(env, timeout, a, 0) else NoChild;
            before + Attempts(env, timeout, tries, a)
              == (before + [end]) + if end.TimedOut? then Attempts(env, timeout, tries, a + 1) else []
    ensures AllSleeps(env, timeout, a + 1)
         == AllSleeps(env, timeout, a) + if env.forkOk(a) then Sleeps(env, timeout, a, 0) else 0
  {
  }

  lemma OneMore(ends: seq<AttemptEnd>, end: AttemptEnd)
    ensures Unreaped(ends + [end]) == Unreaped(ends) + if LeavesChild(end) then {|ends|} else {}
    ensures |ends| !in Unreaped(ends)
  {
  }
}
