/** What the command runner promises for every environment. */
module CmdRunnerTheorems {
  import opened CTypes
  import opened CmdRunner

  /** The first poll of child `a` that settles its fate is the k-th. */
  predicate FirstFinal(env: Env, a: nat, k: nat) {
    Final(env.poll(a, k)) && forall j: nat :: j < k ==> !Final(env.poll(a, j))
  }

  /** A timeout of n allows polls 0 to n - 1; without one every poll is in time. */
  predicate InTime(timeout: int, k: nat) {
    timeout > 0 ==> k < timeout
  }

  /** Child `a` gives no final answer in time. */
  ghost predicate Silent(env: Env, a: nat, timeout: int) {
    forall k: nat :: InTime(timeout, k) ==> !Final(env.poll(a, k))
  }

  /** `p` is the first final answer for child `a` and comes in time. */
  ghost predicate Settles(env: Env, timeout: int, a: nat, p: Poll) {
    exists k: nat :: InTime(timeout, k) && FirstFinal(env, a, k) && env.poll(a, k) == p
  }

  lemma {:induction false} PolledFromFirst(env: Env, timeout: int, a: nat, k: nat, j: nat)
    requires CommandEnds(env, timeout) && j <= k && InTime(timeout, k) && FirstFinal(env, a, k)
    ensures timeout <= 0 ==> k <= env.patience
    ensures Polled(env, timeout, a, j)
         == if env.poll(a, k).Ended? then Reaped(env.poll(a, k).status) else WaitError
    decreases k - j
  {
    assert timeout <= 0 ==> Final(env.poll(a, env.patience));
    if j < k {
      assert !Final(env.poll(a, j));
      PolledFromFirst(env, timeout, a, k, j + 1);
    }
  }

  lemma {:induction false} PolledSilent(env: Env, timeout: int, a: nat, j: nat)
    requires j < timeout && Silent(env, a, timeout)
    ensures Polled(env, timeout, a, j) == TimedOut(env.killOk(a), env.killOk(a) && env.reapOk(a))
    decreases timeout - j
  {
    assert InTime(timeout, j) && !Final(env.poll(a, j));
    if j + 1 < timeout {
      PolledSilent(env, timeout, a, j + 1);
    }
  }

  /** Some answer among the first `n` is the first final one, unless none of them is final. */
  lemma {:induction false} FinalOrNone(env: Env, a: nat, n: nat)
    ensures (forall k: nat :: k < n ==> !Final(env.poll(a, k))) || exists k: nat :: k < n && FirstFinal(env, a, k)
  {
    if n > 0 {
      FinalOrNone(env, a, n - 1);
      if (forall k: nat :: k < n - 1 ==> !Final(env.poll(a, k))) && Final(env.poll(a, n - 1)) {
        assert FirstFinal(env, a, n - 1);
      }
    }
  }

  /** A child gives a first final answer in time or is silent, and without a timeout it answers. */
  lemma SilentOrFinal(env: Env, timeout: int, a: nat)
    requires CommandEnds(env, timeout)
    ensures Silent(env, a, timeout) || exists k: nat :: InTime(timeout, k) && FirstFinal(env, a, k)
    ensures Silent(env, a, timeout) ==> timeout > 0
  {
    if timeout > 0 {
      FinalOrNone(env, a, timeout);
    } else {
      assert InTime(timeout, env.patience) && Final(env.poll(a, env.patience));
      FinalOrNone(env, a, env.patience + 1);
    }
  }

  /**
    * An attempt ends with the first final answer among the polls its timeout allows, and times out exactly when there
    * is none; a child that ends only after the last poll is killed all the same.
    */
  lemma AttemptIsFirstFinalAnswer(env: Env, timeout: int, a: nat)
    requires CommandEnds(env, timeout) && env.forkOk(a)
    ensures Attempt(env, timeout, a).TimedOut? <==> Silent(env, a, timeout)
    ensures forall status :: Attempt(env, timeout, a) == Reaped(status) <==> Settles(env, timeout, a, Ended(status))
    ensures Attempt(env, timeout, a).WaitError? <==> Settles(env, timeout, a, WaitFailed)
  {
    SilentOrFinal(env, timeout, a);
    if k: nat :| InTime(timeout, k) && FirstFinal(env, a, k) {
      PolledFromFirst(env, timeout, a, k, 0);
      OnlyFirst(env, timeout, a, k);
    } else {
      PolledSilent(env, timeout, a, 0);
    }
  }

  lemma OnlyFirst(env: Env, timeout: int, a: nat, k: nat)
    requires InTime(timeout, k) && FirstFinal(env, a, k)
    ensures !Silent(env, a, timeout)
    ensures forall j: nat :: FirstFinal(env, a, j) ==> j == k
  {
  }

  /** Attempt i is the i-th child's, all but the last have timed out, and the retries are used up only by timeouts. */
  lemma {:induction false} RetriesOnlyAfterTimeouts(env: Env, timeout: int, tries: int, a: nat)
    requires CommandEnds(env, timeout)
    ensures var ends := Attempts(env, timeout, tries, a);
            && |ends| <= (if a <= tries then tries + 1 - a else 0)
            && (ends == [] <==> a > tries)
            && (forall i :: 0 <= i < |ends| ==> ends[i] == Attempt(env, timeout, a + i))
            && (forall i :: 0 <= i < |ends| - 1 ==> ends[i].TimedOut?)
            && (ends != [] && ends[|ends|-1].TimedOut? ==> |ends| == tries + 1 - a)
    decreases tries - a
  {
    if a <= tries {
      RetriesOnlyAfterTimeouts(env, timeout, tries, a + 1);
    }
  }

  /** An attempt sleeps once for every poll before its first final answer, and through the whole timeout without one. */
  lemma {:induction false} SleepsUntilFinal(env: Env, timeout: int, a: nat, j: nat, k: nat)
    requires 0 <= j <= k <= timeout && j < timeout
    requires (forall i: nat :: j <= i < k ==> !Final(env.poll(a, i))) && (k < timeout ==> Final(env.poll(a, k)))
    ensures Sleeps(env, timeout, a, j) == k - j
    decreases k - j
  {
    if j + 1 < timeout && j < k {
      SleepsUntilFinal(env, timeout, a, j + 1, k);
    }
  }

  lemma AttemptSleeps(env: Env, timeout: int, a: nat)
    requires timeout > 0
    ensures Sleeps(env, timeout, a, 0) <= timeout
    ensures Sleeps(env, timeout, a, 0) == timeout <==> Silent(env, a, timeout)
  {
    SilentOrFinal(env, timeout, a);
    if k: nat :| InTime(timeout, k) && FirstFinal(env, a, k) {
      SleepsUntilFinal(env, timeout, a, 0, k);
      OnlyFirst(env, timeout, a, k);
    } else {
      SleepsUntilFinal(env, timeout, a, 0, timeout);
    }
  }

  lemma {:induction false} AllSleepsBounded(env: Env, timeout: int, n: nat)
    requires timeout > 0
    ensures AllSleeps(env, timeout, n) <= n * timeout
  {
    if n > 0 {
      AllSleepsBounded(env, timeout, n - 1);
      AttemptSleeps(env, timeout, n - 1);
      assert n * timeout == (n - 1) * timeout + timeout;
    }
  }

  /** At most `tries` + 1 children and that many timeouts' worth of sleeps. */
  lemma ChildrenAndSleepsBounded(env: Env, timeout: int, tries: int)
    requires CommandEnds(env, timeout) && timeout > 0 && tries >= 0
    ensures var n := |Attempts(env, timeout, tries, 0)|;
            1 <= n <= tries + 1 && AllSleeps(env, timeout, n) <= (tries + 1) * timeout
  {
    RetriesOnlyAfterTimeouts(env, timeout, tries, 0);
    var n := |Attempts(env, timeout, tries, 0)|;
    AllSleepsBounded(env, timeout, n);
    MulMono(n, tries + 1, timeout);
  }

  /**
    * If kill and the blocking wait succeed and no poll fails, every child is reaped before the next is forked and
    * before the call returns.
    */
  lemma EveryChildIsReaped(env: Env, timeout: int, tries: int, i: nat)
    requires CommandEnds(env, timeout)
    requires (forall a, k :: !env.poll(a, k).WaitFailed?) && (forall a :: env.killOk(a) && env.reapOk(a))
    requires i <= |Attempts(env, timeout, tries, 0)|
    ensures Unreaped(Attempts(env, timeout, tries, 0)[..i]) == {}
  {
    RetriesOnlyAfterTimeouts(env, timeout, tries, 0);
    forall a: nat ensures !LeavesChild(Attempt(env, timeout, a)) {
      if env.forkOk(a) {
        PolledLeavesNoChild(env, timeout, a, 0);
      }
    }
  }

  lemma {:induction false} PolledLeavesNoChild(env: Env, timeout: int, a: nat, k: nat)
    requires if timeout > 0 then k < timeout else k <= env.patience && Final(env.poll(a, env.patience))
    requires (forall b, j :: !env.poll(b, j).WaitFailed?) && env.killOk(a) && env.reapOk(a)
    ensures !LeavesChild(Polled(env, timeout, a, k))
    decreases if timeout > 0 then timeout - k else env.patience - k
  {
    if !Final(env.poll(a, k)) && (timeout <= 0 || k + 1 < timeout) {
      PolledLeavesNoChild(env, timeout, a, k + 1);
    }
  }

  // ----- what the code tells -----

  /** The a-th attempt is made: every earlier child was forked and gave no final answer in time. */
  ghost predicate Reached(env: Env, timeout: int, a: nat) {
    forall b: nat :: b < a ==> env.forkOk(b) && Silent(env, b, timeout)
  }

  /** `p` is the first final answer any child of an allowed attempt gives in time. */
  ghost predicate FirstAnswer(env: Env, timeout: int, tries: int, p: Poll) {
    exists a: nat :: a <= tries && Reached(env, timeout, a) && env.forkOk(a) && Settles(env, timeout, a, p)
  }

  ghost predicate AllSilent(env: Env, timeout: int, tries: int) {
    forall a: nat :: a <= tries ==> env.forkOk(a) && Silent(env, a, timeout)
  }

  ghost predicate ForkFails(env: Env, timeout: int, tries: int) {
    exists a: nat :: a <= tries && Reached(env, timeout, a) && !env.forkOk(a)
  }

  /** The last attempt that is made has been reached, and goes on being the last one only for lack of tries. */
  lemma LastIsReached(env: Env, timeout: int, tries: int)
    requires CommandEnds(env, timeout) && tries >= 0
    ensures var ends := Attempts(env, timeout, tries, 0); var last := |ends| - 1;
            && 0 <= last <= tries && ends[last] == Attempt(env, timeout, last) && Reached(env, timeout, last)
            && (ends[last].TimedOut? ==> last == tries)
  {
    RetriesOnlyAfterTimeouts(env, timeout, tries, 0);
    var ends := Attempts(env, timeout, tries, 0);
    var last := |ends| - 1;
    assert ends[last] == Attempt(env, timeout, 0 + last);
    forall b: nat | b < last ensures env.forkOk(b) && Silent(env, b, timeout) {
      assert ends[b] == Attempt(env, timeout, 0 + b) && ends[b].TimedOut?;
      AttemptIsFirstFinalAnswer(env, timeout, b);
    }
  }

  /** No attempt but the last is reached and does anything but time out. */
  lemma OnlyLastAnswers(env: Env, timeout: int, tries: int, a: nat)
    requires CommandEnds(env, timeout) && a <= tries && Reached(env, timeout, a)
    requires env.forkOk(a) ==> !Silent(env, a, timeout)
    ensures a == |Attempts(env, timeout, tries, 0)| - 1
  {
    LastIsReached(env, timeout, tries);
    var last := |Attempts(env, timeout, tries, 0)| - 1;
    if a > last {
      assert env.forkOk(last) && Silent(env, last, timeout);
      AttemptIsFirstFinalAnswer(env, timeout, last);
    }
  }

  lemma SettledIsNotSilent(env: Env, timeout: int, a: nat, p: Poll)
    requires Settles(env, timeout, a, p)
    ensures !Silent(env, a, timeout)
  {
    var k: nat :| InTime(timeout, k) && FirstFinal(env, a, k) && env.poll(a, k) == p;
    OnlyFirst(env, timeout, a, k);
  }

  lemma AnswererIsLast(env: Env, timeout: int, tries: int, a: nat, p: Poll)
    requires CommandEnds(env, timeout)
    requires a <= tries && Reached(env, timeout, a) && env.forkOk(a) && Settles(env, timeout, a, p)
    ensures a == |Attempts(env, timeout, tries, 0)| - 1
  {
    hide Attempts, Reached, Silent, Settles;
    SettledIsNotSilent(env, timeout, a, p);
    OnlyLastAnswers(env, timeout, tries, a);
  }

  lemma LastAnswers(env: Env, timeout: int, tries: int, p: Poll)
    requires CommandEnds(env, timeout) && tries >= 0
    ensures var last := |Attempts(env, timeout, tries, 0)| - 1;
            && last >= 0
            && (FirstAnswer(env, timeout, tries, p) <==> env.forkOk(last) && Settles(env, timeout, last, p))
  {
    hide Attempts, Reached, Silent, Settles, Attempt, CommandEnds;
    LastIsReached(env, timeout, tries);
    var last: nat := |Attempts(env, timeout, tries, 0)| - 1;
    if FirstAnswer(env, timeout, tries, p) {
      var a: nat :| a <= tries && Reached(env, timeout, a) && env.forkOk(a) && Settles(env, timeout, a, p);
      AnswererIsLast(env, timeout, tries, a, p);
      assert a == last;
    } else {
      assert last <= tries && Reached(env, timeout, last);
    }
  }

  lemma LastForks(env: Env, timeout: int, tries: int)
    requires CommandEnds(env, timeout) && tries >= 0
    ensures var last := |Attempts(env, timeout, tries, 0)| - 1;
            last >= 0 && (ForkFails(env, timeout, tries) <==> !env.forkOk(last))
  {
    LastIsReached(env, timeout, tries);
    hide Attempts, Reached;
    if a: nat :| a <= tries && Reached(env, timeout, a) && !env.forkOk(a) {
      OnlyLastAnswers(env, timeout, tries, a);
    }
  }

  lemma LastIsSilent(env: Env, timeout: int, tries: int)
    requires CommandEnds(env, timeout) && tries >= 0
    ensures var last := |Attempts(env, timeout, tries, 0)| - 1;
            last >= 0 && (AllSilent(env, timeout, tries) <==> env.forkOk(last) && Silent(env, last, timeout))
  {
    LastIsReached(env, timeout, tries);
    var last := |Attempts(env, timeout, tries, 0)| - 1;
    hide Attempts, Silent;
    if env.forkOk(last) && Silent(env, last, timeout) {
      AttemptIsFirstFinalAnswer(env, timeout, last);
      assert last == tries;
    }
  }

  /** How the last attempt ends tells what the children have answered. */
  lemma LastDecides(env: Env, timeout: int, tries: int)
    requires CommandEnds(env, timeout) && tries >= 0
    ensures var ends := Attempts(env, timeout, tries, 0); var last := |ends| - 1;
            && last >= 0
            && (ends[last].NoChild? <==> ForkFails(env, timeout, tries))
            && (ends[last].TimedOut? <==> AllSilent(env, timeout, tries))
            && (ends[last].WaitError? <==> FirstAnswer(env, timeout, tries, WaitFailed))
            && (forall status :: ends[last] == Reaped(status) <==> FirstAnswer(env, timeout, tries, Ended(status)))
  {
    LastIsReached(env, timeout, tries);
    LastForks(env, timeout, tries);
    LastIsSilent(env, timeout, tries);
    LastAnswers(env, timeout, tries, WaitFailed);
    var last := |Attempts(env, timeout, tries, 0)| - 1;
    hide Attempts, Reached, Silent, Settles, FirstAnswer, ForkFails, AllSilent, Polled;
    if env.forkOk(last) {
      AttemptIsFirstFinalAnswer(env, timeout, last);
    }
    forall status ensures Attempts(env, timeout, tries, 0)[last] == Reaped(status)
                     <==> FirstAnswer(env, timeout, tries, Ended(status)) {
      LastAnswers(env, timeout, tries, Ended(status));
    }
  }

  /**
    * RL_SUCCESS means exactly that the signal calls succeed and, unless no attempt is allowed at all, the first final
    * answer any child gives in time is a normal exit.
    */
  lemma SuccessExactly(env: Env, timeout: int, tries: int)
    requires CommandEnds(env, timeout)
    ensures Result(env, Attempts(env, timeout, tries, 0)) == Returned(RL_SUCCESS)
       <==> && SetupOk(env) && RestoreOk(env)
            && (tries < 0 || exists status :: TermBits(status) == 0 && FirstAnswer(env, timeout, tries, Ended(status)))
  {
    var ends := Attempts(env, timeout, tries, 0);
    if tries >= 0 {
      LastDecides(env, timeout, tries);
      hide Attempts, FirstAnswer, AllSilent, ForkFails;
      if ends[|ends|-1].Reaped? {
        assert ends[|ends|-1] == Reaped(ends[|ends|-1].status);
      }
    }
  }

  /** Only a failing fork ends the process instead of the call. */
  lemma ExitsExactly(env: Env, timeout: int, tries: int)
    requires CommandEnds(env, timeout)
    ensures Result(env, Attempts(env, timeout, tries, 0)) == Exited <==> SetupOk(env) && ForkFails(env, timeout, tries)
  {
    if tries >= 0 {
      LastDecides(env, timeout, tries);
    }
  }

  /** The statuses that decode to the failure code: death by signal 1, and neither an exit nor a signal. */
  predicate LooksFailed(status: int32) {
    TermBits(status) == 1 || TermBits(status) == 127
  }

  /**
    * RL_FAILED means exactly that a signal call fails, or that the children stay silent, or that the first final answer
    * is an error of the wait or one of the statuses that look like a failure.
    */
  lemma FailureExactly(env: Env, timeout: int, tries: int)
    requires CommandEnds(env, timeout)
    ensures Result(env, Attempts(env, timeout, tries, 0)) == Returned(RL_FAILED)
       <==> || !SetupOk(env)
            || (&& !ForkFails(env, timeout, tries)
                && (|| !RestoreOk(env)
                    || (&& tries >= 0
                        && (|| AllSilent(env, timeout, tries)
                            || FirstAnswer(env, timeout, tries, WaitFailed)
                            || exists status ::
                                 LooksFailed(status) && FirstAnswer(env, timeout, tries, Ended(status))))))
  {
    var ends := Attempts(env, timeout, tries, 0);
    if tries >= 0 {
      LastDecides(env, timeout, tries);
      hide Attempts, FirstAnswer, AllSilent, ForkFails;
      if ends[|ends|-1].Reaped? {
        assert ends[|ends|-1] == Reaped(ends[|ends|-1].status);
      }
    }
  }

  /**
    * The promise that the failure code is given only when the command could not be run to its end fails: with all
    * system calls in order, a command that has ended is reported with it if and only if its status looks like one.
    */
  lemma FailureCodeIsAmbiguous(env: Env, timeout: int, tries: int, status: int32)
    requires CommandEnds(env, timeout) && SetupOk(env) && RestoreOk(env)
    requires FirstAnswer(env, timeout, tries, Ended(status))
    ensures Result(env, Attempts(env, timeout, tries, 0)) == Returned(RL_FAILED) <==> LooksFailed(status)
  {
    LastDecides(env, timeout, tries);
    hide Attempts, FirstAnswer, AllSilent, ForkFails;
  }

  /**
    * A command that has ended, with all system calls in order: the call gives 0 for an exit, whatever its code, minus
    * the signal number for death by a signal, and -1 for a status that is neither.
    */
  lemma CodeOfEndedCommand(env: Env, timeout: int, tries: int, status: int32)
    requires CommandEnds(env, timeout) && SetupOk(env) && RestoreOk(env)
    requires FirstAnswer(env, timeout, tries, Ended(status))
    ensures Result(env, Attempts(env, timeout, tries, 0))
         == Returned(if status % 128 == 0 then 0 else if status % 128 < 127 then 0 - status % 128 else -1)
  {
    LastDecides(env, timeout, tries);
    hide Attempts, FirstAnswer, AllSilent, ForkFails;
  }

  /** For signals 2 to 126 the code is given exactly for death by that signal, with or without a core dump. */
  lemma SignalToldExactly(env: Env, timeout: int, tries: int, sig: int)
    requires CommandEnds(env, timeout) && 2 <= sig <= 126
    ensures Result(env, Attempts(env, timeout, tries, 0)) == Returned(0 - sig)
       <==> && SetupOk(env) && RestoreOk(env)
            && exists status: int32 :: status % 128 == sig && FirstAnswer(env, timeout, tries, Ended(status))
  {
    var ends := Attempts(env, timeout, tries, 0);
    if tries >= 0 {
      LastDecides(env, timeout, tries);
      hide Attempts, FirstAnswer, AllSilent, ForkFails;
      if ends[|ends|-1].Reaped? {
        assert ends[|ends|-1] == Reaped(ends[|ends|-1].status);
      }
    }
  }

  /** wait encodes an exit code in the second byte, and a signal in the first with 128 added for a core dump. */
  lemma WaitStatuses(code: nat, sig: nat)
    requires code < 256 && 0 < sig < 127
    ensures (code * 256) % 128 == 0 && sig % 128 == sig && (sig + 128) % 128 == sig
  {
    assert code * 256 == (code * 2) * 128;
  }

  /** All goes well, and the child is found dead by signal 1 at the first poll. */
  function HungUp(): Env {
    Env((a, k) => Ended(1), 0, a => true, a => true, a => true, true, true, true, true, true, true)
  }

  lemma SignalOneLooksFailed(timeout: int, tries: nat)
    ensures CommandEnds(HungUp(), timeout)
    ensures Attempts(HungUp(), timeout, tries, 0) == [Reaped(1)]
    ensures Result(HungUp(), Attempts(HungUp(), timeout, tries, 0)) == Returned(RL_FAILED)
  {
  }

  /** A negative number of tries runs nothing and still reports success. */
  lemma NegativeTriesRunNothing(env: Env, timeout: int, tries: int)
    requires CommandEnds(env, timeout) && tries < 0 && SetupOk(env) && RestoreOk(env)
    ensures Attempts(env, timeout, tries, 0) == []
    ensures Result(env, Attempts(env, timeout, tries, 0)) == Returned(RL_SUCCESS)
  {
  }

  // ----- what a call leaves behind -----

  /** Child `a` is left over exactly if a wait for it fails, or if it stays silent and cannot be killed and reaped. */
  lemma ChildLeftExactly(env: Env, timeout: int, tries: int, a: nat)
    requires CommandEnds(env, timeout) && a < |Attempts(env, timeout, tries, 0)| && env.forkOk(a)
    ensures a in Unreaped(Attempts(env, timeout, tries, 0))
       <==> Settles(env, timeout, a, WaitFailed) || (Silent(env, a, timeout) && !(env.killOk(a) && env.reapOk(a)))
  {
    RetriesOnlyAfterTimeouts(env, timeout, tries, 0);
    assert Attempts(env, timeout, tries, 0)[a] == Attempt(env, timeout, 0 + a);
    AttemptIsFirstFinalAnswer(env, timeout, a);
    if Silent(env, a, timeout) {
      SilentOrFinal(env, timeout, a);
      PolledSilent(env, timeout, a, 0);
    }
  }

  /** Without a timeout nothing sleeps. */
  lemma {:induction false} NoTimeoutNoSleep(env: Env, timeout: int, n: nat)
    requires CommandEnds(env, timeout) && timeout <= 0
    ensures AllSleeps(env, timeout, n) == 0
  {
    if n > 0 {
      NoTimeoutNoSleep(env, timeout, n - 1);
    }
  }

  /** The sleeps of one attempt: its whole timeout, or as many as there are polls before its first final answer. */
  ghost predicate SleepsFor(env: Env, timeout: int, a: nat, n: nat) {
    if !env.forkOk(a) then n == 0
    else if Silent(env, a, timeout) then n == timeout
    else n < timeout && FirstFinal(env, a, n)
  }

  lemma OneAttemptSleeps(env: Env, timeout: int, a: nat)
    requires timeout > 0
    ensures SleepsFor(env, timeout, a, if env.forkOk(a) then Sleeps(env, timeout, a, 0) else 0)
  {
    SilentOrFinal(env, timeout, a);
    if k: nat :| InTime(timeout, k) && FirstFinal(env, a, k) {
      SleepsUntilFinal(env, timeout, a, 0, k);
      OnlyFirst(env, timeout, a, k);
    } else {
      SleepsUntilFinal(env, timeout, a, 0, timeout);
    }
  }

  lemma {:induction false} SilentSleeps(env: Env, timeout: int, n: nat)
    requires timeout > 0 && Reached(env, timeout, n)
    ensures AllSleeps(env, timeout, n) == n * timeout
  {
    if n > 0 {
      assert Reached(env, timeout, n - 1);
      SilentSleeps(env, timeout, n - 1);
      OneAttemptSleeps(env, timeout, n - 1);
      assert n * timeout == (n - 1) * timeout + timeout;
    }
  }

  /** All attempts but the last sleep through their timeout, the last until its first final answer. */
  lemma CallSleepsExactly(env: Env, timeout: int, tries: int)
    requires timeout > 0 && tries >= 0
    ensures var last := |Attempts(env, timeout, tries, 0)| - 1;
            && last >= 0
            && exists n: nat :: SleepsFor(env, timeout, last, n)
                             && AllSleeps(env, timeout, last + 1) == last * timeout + n
  {
    LastIsReached(env, timeout, tries);
    var last := |Attempts(env, timeout, tries, 0)| - 1;
    SilentSleeps(env, timeout, last);
    OneAttemptSleeps(env, timeout, last);
  }

  /** What a returning call leaves of the caller's signal state, component by component. */
  lemma SignalsLeftExactly(b: Signals, env: Env)
    ensures var s := SignalsAfter(b, env);
            var entered := env.setInt && env.setQuit && env.block;
            && s.int_ == (if env.setInt && !(entered && env.unblock && env.restoreInt) then Ignore else b.int_)
            && s.quit == (if env.setInt && env.setQuit && !(entered && RestoreOk(env)) then Ignore else b.quit)
            && s.chld == (if entered && !env.unblock then Default else b.chld)
            && s.mask == (if entered && !env.unblock then b.mask + {17} else b.mask)
  {
  }

  /**
    * The call leaves every caller's signal state as it found it if and only if its first signal call fails or all six
    * succeed; any other failure leaves something changed.
    */
  lemma SignalsRestoredExactly(env: Env)
    ensures (forall b :: SignalsAfter(b, env) == b) <==> !env.setInt || (SetupOk(env) && RestoreOk(env))
  {
    var b := Signals(Default, Default, Handler(0), {});
    assert SignalsAfter(b, env) == b ==> !env.setInt || (SetupOk(env) && RestoreOk(env));
  }
}
