/** Threads writing whole lines to one log file under a mutex, with short writes and truncation at a limit. */
module LogWriter {
  import opened CTypes
  import opened LogLine

  /** RL_LOG_FILE_SIZE. */
  const LIMIT: nat := 1024 * 1024 * 50
  /** No line is longer than this; see LogLine.LineFits. */
  const MAX_LINE: nat := LINE_BUF - 1

  // ----- what happens to the file, one critical section at a time -----

  /** A finished critical section put `n` characters of `line` at the end of the file, or emptied it. */
  datatype Event = Appended(line: string, n: nat) | Emptied

  predicate Possible(e: Event) {
    e.Appended? ==> e.n <= |e.line|
  }

  function Effect(file: string, e: Event): string
    requires Possible(e)
  {
    match e
    case Appended(line, n) => file + line[..n]
    case Emptied => ""
  }

  function Replay(file: string, es: seq<Event>): string
    requires forall e :: e in es ==> Possible(e)
  {
    if es == [] then file else Effect(Replay(file, es[..|es|-1]), es[|es|-1])
  }

  lemma ReplayOne(file: string, es: seq<Event>, e: Event)
    requires (forall d :: d in es ==> Possible(d)) && Possible(e)
    ensures forall d :: d in es + [e] ==> Possible(d)
    ensures Replay(file, es + [e]) == Effect(Replay(file, es), e)
  {
  }

  // ----- the threads -----

  datatype Pc =
    | Out                            // not logging
    | Formatted(line: string)        // line built, lock not taken
    | Holding(line: string)          // lock taken, size not checked
    | Writing(line: string, n: nat)  // lock held, n characters written

  datatype State = State(file: string, holder: Option<nat>, threads: seq<Pc>)

  /** One step of thread `t`, with what the kernel answers. `Write.k` characters are taken, possibly none. */
  datatype Action =
    | Start(t: nat, line: string)
    | Acquire(t: nat)
    | CheckSize(t: nat, statOk: bool, truncateOk: bool, seekOk: bool)
    | Write(t: nat, k: nat)
    | WriteFails(t: nat)
    | Release(t: nat)

  function At(s: State, t: nat): Pc {
    if t < |s.threads| then s.threads[t] else Out
  }

  predicate Enabled(s: State, a: Action) {
    && a.t < |s.threads|
    && match a
       case Start(t, line) => At(s, t).Out? && |line| <= MAX_LINE
       case Acquire(t) => At(s, t).Formatted? && s.holder.None?
       case CheckSize(t, _, _, _) => At(s, t).Holding?
       case Write(t, k) => At(s, t).Writing? && At(s, t).n < |At(s, t).line| && k <= |At(s, t).line| - At(s, t).n
       case WriteFails(t) => At(s, t).Writing? && At(s, t).n < |At(s, t).line|
       case Release(t) => At(s, t).Writing? && At(s, t).n >= |At(s, t).line|
  }

  function Go(s: State, t: nat, pc: Pc): State
    requires t < |s.threads|
  {
    s.(threads := s.threads[t := pc])
  }

  function Leave(s: State, t: nat): State
    requires t < |s.threads|
  {
    Go(s, t, Out).(holder := None)
  }

  predicate OverLimit(s: State, statOk: bool) {
    statOk && |s.file| > LIMIT
  }

  function Apply(s: State, a: Action): State
    requires Enabled(s, a)
  {
    var pc := At(s, a.t);
    match a
    case Start(t, line) => Go(s, t, Formatted(line))
    case Acquire(t) => Go(s, t, Holding(pc.line)).(holder := Some(t))
    case CheckSize(t, statOk, truncateOk, seekOk) =>
      if !OverLimit(s, statOk) then Go(s, t, Writing(pc.line, 0))
      else if !truncateOk then Leave(s, t)
      else if !seekOk then Leave(s, t).(file := "")
      else Go(s, t, Writing(pc.line, 0)).(file := "")
    case Write(t, k) =>
      Go(s, t, Writing(pc.line, pc.n + k)).(file := s.file + pc.line[pc.n..pc.n + k])
    case WriteFails(t) => Leave(s, t)
    case Release(t) => Leave(s, t)
  }

  predicate Schedule(s: State, actions: seq<Action>)
    decreases |actions|
  {
    actions == [] || (Enabled(s, actions[0]) && Schedule(Apply(s, actions[0]), actions[1..]))
  }

  function Execute(s: State, actions: seq<Action>): State
    requires Schedule(s, actions)
    decreases |actions|
  {
    if actions == [] then s else Execute(Apply(s, actions[0]), actions[1..])
  }

  /** What an action does to the file as seen by whoever takes the lock next. */
  function Events(s: State, a: Action): seq<Event>
    requires Enabled(s, a)
  {
    match a
    case CheckSize(_, statOk, truncateOk, _) => if OverLimit(s, statOk) && truncateOk then [Emptied] else []
    case WriteFails(t) => [Appended(At(s, t).line, At(s, t).n)]
    case Release(t) => [Appended(At(s, t).line, At(s, t).n)]
    case _ => []
  }

  /** The events of a whole schedule, in the order in which critical sections held the lock. */
  function History(s: State, actions: seq<Action>): seq<Event>
    requires Schedule(s, actions)
    decreases |actions|
  {
    if actions == [] then [] else Events(s, actions[0]) + History(Apply(s, actions[0]), actions[1..])
  }

  // ----- invariants -----

  predicate InSection(pc: Pc) {
    pc.Holding? || pc.Writing?
  }

  /** The characters the current critical section has put at the end of the file. */
  function Partial(s: State): string {
    if s.holder.Some? && At(s, s.holder.value).Writing? && At(s, s.holder.value).n <= |At(s, s.holder.value).line|
    then At(s, s.holder.value).line[..At(s, s.holder.value).n] else ""
  }

  ghost predicate Exclusive(s: State) {
    forall t :: 0 <= t < |s.threads| && InSection(s.threads[t]) ==> s.holder == Some(t)
  }

  ghost predicate LinesOk(s: State) {
    && (forall t :: 0 <= t < |s.threads| && !s.threads[t].Out? ==> |s.threads[t].line| <= MAX_LINE)
    && (forall t :: 0 <= t < |s.threads| && s.threads[t].Writing? ==> s.threads[t].n <= |s.threads[t].line|)
  }

  /** Only the thread inside the critical section may have left an unfinished line at the end of the file. */
  ghost predicate Inv(s: State) {
    && (s.holder.Some? ==> s.holder.value < |s.threads| && InSection(s.threads[s.holder.value]))
    && Exclusive(s)
    && LinesOk(s)
  }

  /** The file is `committed` plus the prefix now being written. */
  ghost predicate Reads(s: State, committed: string) {
    s.file == committed + Partial(s)
  }

  lemma ActionKeepsInv(s: State, a: Action)
    requires Inv(s) && Enabled(s, a)
    ensures Inv(Apply(s, a))
  {
  }

  /** A step changes what is committed by its event and by nothing else: critical sections act as one step. */
  lemma ActionCommits(s: State, a: Action, committed: string)
    requires Inv(s) && Enabled(s, a) && Reads(s, committed)
    ensures forall e :: e in Events(s, a) ==> Possible(e)
    ensures Reads(Apply(s, a), Replay(committed, Events(s, a)))
  {
  }

  lemma {:induction false} ReplayAppend(file: string, xs: seq<Event>, ys: seq<Event>)
    requires forall e :: e in xs + ys ==> Possible(e)
    ensures (forall e :: e in xs ==> Possible(e)) && (forall e :: e in ys ==> Possible(e))
    ensures Replay(file, xs + ys) == Replay(Replay(file, xs), ys)
  {
    assert forall e :: e in xs || e in ys ==> e in xs + ys;
    if ys == [] {
      assert xs + ys == xs;
    } else {
      var zs := ys[..|ys|-1];
      assert (xs + ys)[..|xs + ys| - 1] == xs + zs;
      assert forall e :: e in xs + zs ==> e in xs + ys;
      ReplayAppend(file, xs, zs);
    }
  }

  /**
    * For any number of threads, any schedule and any pattern of short and failed writes: the file is the replay of
    * the finished critical sections in lock order, each one contiguous prefix of one line, plus a prefix of the
    * line being written now.
    */
  lemma {:induction false} FileIsLinesInLockOrder(s: State, actions: seq<Action>, committed: string)
    requires Inv(s) && Reads(s, committed) && Schedule(s, actions)
    ensures var t := Execute(s, actions);
            && Inv(t) && (forall e :: e in History(s, actions) ==> Possible(e))
            && Reads(t, Replay(committed, History(s, actions)))
    decreases |actions|
  {
    if actions != [] {
      var a := actions[0];
      ActionKeepsInv(s, a);
      ActionCommits(s, a, committed);
      var c := Replay(committed, Events(s, a));
      hide Inv, Reads, Apply, Enabled, Events, Replay;
      FileIsLinesInLockOrder(Apply(s, a), actions[1..], c);
      ReplayAppend(committed, Events(s, a), History(Apply(s, a), actions[1..]));
    }
  }

  // ----- the file since the last truncation -----

  function Joined(es: seq<Event>): string
    requires forall e :: e in es ==> Possible(e) && e.Appended?
  {
    if es == [] then "" else
    var last := es[|es|-1];
    assert last in es && Possible(last);
    Joined(es[..|es|-1]) + last.line[..last.n]
  }

  /** The events behind the last truncation, or all of them. */
  function SinceEmptied(es: seq<Event>): (r: seq<Event>)
    ensures forall e :: e in r ==> e in es && e.Appended?
  {
    if es == [] || es[|es|-1].Emptied? then [] else SinceEmptied(es[..|es|-1]) + [es[|es|-1]]
  }

  /** A truncation forgets everything before it; behind it the file is the plain concatenation of what was appended. */
  lemma {:induction false} ReplaySinceEmptied(file: string, es: seq<Event>)
    requires forall e :: e in es ==> Possible(e)
    ensures Replay(file, es) == (if Emptied in es then "" else file) + Joined(SinceEmptied(es))
  {
    if es != [] {
      var init, last := es[..|es|-1], es[|es|-1];
      assert es == init + [last];
      assert (forall e :: e in init ==> Possible(e)) && Possible(last) by {
        assert (forall e :: e in init ==> e in es) && last in es;
      }
      ReplaySinceEmptied(file, init);
      SinceEmptiedOneMore(init, last);
      ReplayOne(file, init, last);
      hide Replay, SinceEmptied, Joined;
      if last.Appended? {
        JoinedOneMore(SinceEmptied(init), last);
        Grouped(if Emptied in init then "" else file, Joined(SinceEmptied(init)), last.line[..last.n]);
      }
    }
  }

  lemma SinceEmptiedOneMore(es: seq<Event>, e: Event)
    ensures SinceEmptied(es + [e]) == if e.Emptied? then [] else SinceEmptied(es) + [e]
    ensures Joined([]) == ""
    ensures Emptied in es + [e] <==> Emptied in es || e == Emptied
  {
    assert (es + [e])[..|es|] == es;
  }

  lemma Grouped(a: string, b: string, c: string)
    ensures a + b + c == a + (b + c)
  {
  }

  lemma JoinedOneMore(es: seq<Event>, e: Event)
    requires (forall d :: d in es ==> Possible(d) && d.Appended?) && Possible(e) && e.Appended?
    ensures forall d :: d in es + [e] ==> Possible(d) && d.Appended?
    ensures Joined(es + [e]) == Joined(es) + e.line[..e.n]
  {
    assert (es + [e])[..|es|] == es;
  }

  /**
    * For any threads and any schedule: the file is the concatenation, in lock order, of what finished sections have
    * appended since the last truncation, behind what was there before if there was none, plus the prefix of the line
    * being written now.
    */
  lemma SinceLastTruncation(s: State, actions: seq<Action>, committed: string)
    requires Inv(s) && Reads(s, committed) && Schedule(s, actions)
    ensures var t, es := Execute(s, actions), History(s, actions);
            && (forall e :: e in es ==> Possible(e))
            && t.file == (if Emptied in es then "" else committed) + Joined(SinceEmptied(es)) + Partial(t)
  {
    FileIsLinesInLockOrder(s, actions, committed);
    hide Replay, Joined, SinceEmptied, Partial, Inv, Execute, History, Schedule;
    ReplaySinceEmptied(committed, History(s, actions));
  }

  /** Without a failing write every finished critical section has put down its whole line. */
  lemma {:induction false} WithoutFailuresLinesAreWhole(s: State, actions: seq<Action>)
    requires Inv(s) && Schedule(s, actions) && forall a :: a in actions ==> !a.WriteFails?
    ensures forall e :: e in History(s, actions) && e.Appended? ==> e.n == |e.line|
    decreases |actions|
  {
    if actions != [] {
      ActionKeepsInv(s, actions[0]);
      assert forall e :: e in Events(s, actions[0]) && e.Appended? ==> e.n == |e.line|;
      assert forall a :: a in actions[1..] ==> a in actions;
      hide Inv, Apply, Enabled, Events;
      WithoutFailuresLinesAreWhole(Apply(s, actions[0]), actions[1..]);
    }
  }

  // ----- the size of the file -----

  /** The bound the file keeps; a writer past its size check may still use up to one line. */
  ghost predicate Bounded(s: State) {
    && |s.file| <= LIMIT + MAX_LINE
    && (s.holder.Some? && At(s, s.holder.value).Writing? ==> |s.file| <= LIMIT + At(s, s.holder.value).n)
  }

  lemma ActionKeepsBound(s: State, a: Action)
    requires Inv(s) && Bounded(s) && Enabled(s, a) && (a.CheckSize? ==> a.statOk)
    ensures Bounded(Apply(s, a))
  {
  }

  /** While stat succeeds the file never exceeds 50 MiB plus one line, whatever the interleaving. */
  lemma {:induction false} FileStaysBounded(s: State, actions: seq<Action>)
    requires Inv(s) && Bounded(s) && Schedule(s, actions)
    requires forall a :: a in actions && a.CheckSize? ==> a.statOk
    ensures |Execute(s, actions).file| <= 52428800 + 1087
    decreases |actions|
  {
    if actions != [] {
      ActionKeepsInv(s, actions[0]);
      ActionKeepsBound(s, actions[0]);
      assert forall a :: a in actions[1..] ==> a in actions;
      hide Inv, Bounded, Apply, Enabled;
      FileStaysBounded(Apply(s, actions[0]), actions[1..]);
    }
  }

  /** Threads that are all outside, over a file no longer than the bound, are a fit start. */
  lemma QuietStart(file: string, n: nat)
    ensures var s := State(file, None, seq(n, _ => Out));
            Inv(s) && Reads(s, file) && (|file| <= 52428800 + 1087 ==> Bounded(s))
  {
  }
}
