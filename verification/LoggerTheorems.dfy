/** A call of one process is a critical section among threads: the same steps, events and file. */
module LoggerTheorems {
  import opened CTypes
  import opened LogWriter
  import opened Logger

  // ----- the steps of one call -----

  /** The write loop with `left` characters to go. */
  function WriteSteps(t: nat, left: nat, writes: seq<int>): seq<Action>
    requires WritesFit(left, writes)
  {
    if left == 0 then [Release(t)]
    else if writes == [] then []
    else if writes[0] == -1 then [WriteFails(t)]
    else [Write(t, writes[0])] + WriteSteps(t, left - writes[0], writes[1..])
  }

  function CallSteps(before: string, t: nat, line: string, io: Io): seq<Action>
    requires WritesFit(|line|, io.writes)
  {
    [Start(t, line), Acquire(t), CheckSize(t, io.statOk, io.truncateOk, io.seekOk)]
    + if Due(before, io) && !(io.truncateOk && io.seekOk) then [] else WriteSteps(t, |line|, io.writes)
  }

  /** The events one returned call stands for, when `n` characters of its line have gone down. */
  function SectionEvents(before: string, line: string, n: nat, io: Io): seq<Event> {
    if !Due(before, io) then [Appended(line, n)]
    else if !io.truncateOk then []
    else if !io.seekOk then [Emptied]
    else [Emptied, Appended(line, n)]
  }

  // ----- they can be taken, and do what the call does -----

  /** The steps can be taken from `s`, lead to `s'`, and have these events. */
  ghost predicate Leads(s: State, actions: seq<Action>, s': State, es: seq<Event>) {
    Schedule(s, actions) && Execute(s, actions) == s' && History(s, actions) == es
  }

  lemma OneStepMore(s: State, a: Action, rest: seq<Action>, s': State, es: seq<Event>)
    requires Enabled(s, a) && Leads(Apply(s, a), rest, s', es)
    ensures Leads(s, [a] + rest, s', Events(s, a) + es)
  {
    assert ([a] + rest)[1..] == rest;
  }

  lemma LastStep(s: State, a: Action)
    requires Enabled(s, a)
    ensures Leads(s, [a], Apply(s, a), Events(s, a))
  {
    assert Leads(Apply(s, a), [], Apply(s, a), []);
    OneStepMore(s, a, [], Apply(s, a), []);
    assert [a] + [] == [a] && Events(s, a) + [] == Events(s, a);
  }

  /** Where the write loop leads with `left` characters to go: out of the section if it ends, or on in it. */
  function Written(s: State, t: nat, line: string, n: nat, left: nat, writes: seq<int>): State
    requires t < |s.threads| && n + left == |line| && WritesFit(left, writes)
  {
    var m := n + Put(left, writes);
    if Ended(left, writes).Returned? then State(s.file + line[n..m], None, s.threads[t := Out])
    else State(s.file + line[n..m], s.holder, s.threads[t := Writing(line, m)])
  }

  /** The one event of a write loop that ends. */
  function LoopEvents(line: string, n: nat, left: nat, writes: seq<int>): seq<Event>
    requires WritesFit(left, writes)
  {
    if Ended(left, writes).Returned? then [Appended(line, n + Put(left, writes))] else []
  }

  lemma LoopOneMore(t: nat, left: nat, writes: seq<int>)
    requires WritesFit(left, writes) && left > 0 && writes != [] && writes[0] != -1
    ensures var k, rest := writes[0], writes[1..];
            && 0 <= k <= left && WritesFit(left - k, rest)
            && Put(left, writes) == k + Put(left - k, rest) && Ended(left, writes) == Ended(left - k, rest)
            && WriteSteps(t, left, writes) == [Write(t, k)] + WriteSteps(t, left - k, rest)
  {
  }

  lemma TwoWrites(file: string, threads: seq<Pc>, t: nat, line: string, n: nat, k: nat, p: nat)
    requires t < |threads| && n + k + p <= |line|
    ensures file + line[n..n + k] + line[n + k..n + k + p] == file + line[n..n + (k + p)]
    ensures threads[t := Writing(line, n + k)][t := Out] == threads[t := Out]
    ensures threads[t := Writing(line, n + k)][t := Writing(line, n + k + p)]
         == threads[t := Writing(line, n + (k + p))]
  {
    assert line[n..n + k] + line[n + k..n + k + p] == line[n..n + (k + p)];
  }

  lemma WrittenInTwo(s: State, t: nat, line: string, n: nat, left: nat, writes: seq<int>)
    requires t < |s.threads| && s.threads[t] == Writing(line, n) && n + left == |line| && WritesFit(left, writes)
    requires left > 0 && writes != [] && writes[0] != -1
    ensures var k := writes[0];
            && Enabled(s, Write(t, k)) && 0 <= k <= left && WritesFit(left - k, writes[1..])
            && Written(Apply(s, Write(t, k)), t, line, n + k, left - k, writes[1..])
               == Written(s, t, line, n, left, writes)
            && LoopEvents(line, n + k, left - k, writes[1..]) == LoopEvents(line, n, left, writes)
  {
    var k, rest := writes[0], writes[1..];
    LoopOneMore(t, left, writes);
    hide Put, Ended, WritesFit;
    TwoWrites(s.file, s.threads, t, line, n, k, Put(left - k, rest));
  }

  lemma OneWriteMore(s: State, t: nat, line: string, n: nat, left: nat, writes: seq<int>, s': State, es: seq<Event>)
    requires t < |s.threads| && s.threads[t] == Writing(line, n) && n + left == |line| && WritesFit(left, writes)
    requires left > 0 && writes != [] && writes[0] != -1
    requires 0 <= writes[0] <= left && WritesFit(left - writes[0], writes[1..])
    requires Enabled(s, Write(t, writes[0]))
    requires Leads(Apply(s, Write(t, writes[0])), WriteSteps(t, left - writes[0], writes[1..]), s', es)
    ensures Leads(s, WriteSteps(t, left, writes), s', es)
  {
    LoopOneMore(t, left, writes);
    assert Events(s, Write(t, writes[0])) + es == es;
    hide Leads, Apply, Enabled, Events, WriteSteps, WritesFit, Put, Ended;
    OneStepMore(s, Write(t, writes[0]), WriteSteps(t, left - writes[0], writes[1..]), s', es);
  }

  lemma LoopEnds(s: State, t: nat, line: string, n: nat, left: nat, writes: seq<int>)
    requires t < |s.threads| && s.threads[t] == Writing(line, n) && n + left == |line| && WritesFit(left, writes)
    requires left == 0 || writes == [] || writes[0] == -1
    ensures Leads(s, WriteSteps(t, left, writes), Written(s, t, line, n, left, writes),
                  LoopEvents(line, n, left, writes))
  {
    assert s.file + line[n..n] == s.file;
    if left == 0 {
      LastStep(s, Release(t));
    } else if writes == [] {
      assert s.threads[t := Writing(line, n)] == s.threads;
    } else {
      LastStep(s, WriteFails(t));
    }
  }

  lemma {:induction false} WriteLoopLeads(s: State, t: nat, line: string, n: nat, left: nat, writes: seq<int>)
    requires t < |s.threads| && s.threads[t] == Writing(line, n) && n + left == |line| && WritesFit(left, writes)
    ensures Leads(s, WriteSteps(t, left, writes), Written(s, t, line, n, left, writes),
                  LoopEvents(line, n, left, writes))
    decreases |writes|
  {
    if left == 0 || writes == [] || writes[0] == -1 {
      LoopEnds(s, t, line, n, left, writes);
    } else {
      var k := writes[0];
      WrittenInTwo(s, t, line, n, left, writes);
      var s1 := Apply(s, Write(t, k));
      assert |s1.threads| == |s.threads| && s1.threads[t] == Writing(line, n + k);
      hide Leads, Apply, Enabled, Written, LoopEvents, WriteSteps, WritesFit;
      WriteLoopLeads(s1, t, line, n + k, left - k, writes[1..]);
      OneWriteMore(s, t, line, n, left, writes, Written(s, t, line, n, left, writes),
                   LoopEvents(line, n, left, writes));
    }
  }

  /** The state once the section has been entered and the size checked. */
  function Checked(s: State, t: nat, line: string, io: Io): State
    requires t < |s.threads|
  {
    State(if Due(s.file, io) then "" else s.file, Some(t), s.threads[t := Writing(line, 0)])
  }

  lemma EntrySteps(s: State, t: nat, line: string, io: Io)
    requires t < |s.threads| && s.threads[t].Out? && s.holder.None? && |line| <= MAX_LINE
    ensures var a, b, c := Start(t, line), Acquire(t), CheckSize(t, io.statOk, io.truncateOk, io.seekOk);
            && Enabled(s, a) && Enabled(Apply(s, a), b) && Enabled(Apply(Apply(s, a), b), c)
            && Apply(Apply(s, a), b) == State(s.file, Some(t), s.threads[t := Holding(line)])
            && Events(s, a) == [] && Events(Apply(s, a), b) == []
  {
    assert s.threads[t := Formatted(line)][t := Holding(line)] == s.threads[t := Holding(line)];
  }

  lemma ThreeSteps(s: State, a: Action, b: Action, c: Action, rest: seq<Action>, s': State, es: seq<Event>)
    requires Enabled(s, a) && Enabled(Apply(s, a), b) && Enabled(Apply(Apply(s, a), b), c)
    requires Events(s, a) == [] && Events(Apply(s, a), b) == []
    requires Leads(Apply(Apply(Apply(s, a), b), c), rest, s', es)
    ensures Leads(s, [a, b, c] + rest, s', Events(Apply(Apply(s, a), b), c) + es)
  {
    var s1 := Apply(s, a);
    var s2 := Apply(s1, b);
    hide Leads, Apply, Events, Enabled;
    var e := Events(s2, c) + es;
    OneStepMore(s2, c, rest, s', es);
    OneStepMore(s1, b, [c] + rest, s', e);
    OneStepMore(s, a, [b] + ([c] + rest), s', [] + e);
    assert [a] + ([b] + ([c] + rest)) == [a, b, c] + rest;
    assert [] + ([] + e) == e;
  }

  lemma EntryLeads(s: State, t: nat, line: string, io: Io, rest: seq<Action>, s': State, es: seq<Event>)
    requires t < |s.threads| && s.threads[t].Out? && s.holder.None? && |line| <= MAX_LINE
    requires Due(s.file, io) ==> io.truncateOk && io.seekOk
    requires Leads(Checked(s, t, line, io), rest, s', es)
    ensures Leads(s, [Start(t, line), Acquire(t), CheckSize(t, io.statOk, io.truncateOk, io.seekOk)] + rest, s',
                  (if Due(s.file, io) then [Emptied] else []) + es)
  {
    var c := CheckSize(t, io.statOk, io.truncateOk, io.seekOk);
    var s2 := State(s.file, Some(t), s.threads[t := Holding(line)]);
    EntrySteps(s, t, line, io);
    assert s2.threads[t := Writing(line, 0)] == s.threads[t := Writing(line, 0)];
    assert Apply(s2, c) == Checked(s, t, line, io) && Events(s2, c) == if Due(s.file, io) then [Emptied] else [];
    hide Leads, Apply, Events, Checked, Due, Enabled;
    ThreeSteps(s, Start(t, line), Acquire(t), c, rest, s', es);
  }

  /** The calls that give up on a file that is due for truncation. */
  lemma GivenUpLeads(s: State, t: nat, line: string, io: Io)
    requires t < |s.threads| && s.threads[t].Out? && s.holder.None? && |line| <= MAX_LINE
    requires Due(s.file, io) && !(io.truncateOk && io.seekOk)
    ensures Leads(s, [Start(t, line), Acquire(t), CheckSize(t, io.statOk, io.truncateOk, io.seekOk)],
                  s.(file := if io.truncateOk then "" else s.file), if io.truncateOk then [Emptied] else [])
  {
    var a, b, c := Start(t, line), Acquire(t), CheckSize(t, io.statOk, io.truncateOk, io.seekOk);
    var s2 := State(s.file, Some(t), s.threads[t := Holding(line)]);
    var s3 := s.(file := if io.truncateOk then "" else s.file);
    var e: seq<Event> := if io.truncateOk then [Emptied] else [];
    EntrySteps(s, t, line, io);
    assert s2.threads[t := Out] == s.threads;
    assert Apply(s2, c) == s3 && Events(s2, c) == e && Leads(s3, [], s3, []);
    hide Leads, Apply, Events, Enabled;
    ThreeSteps(s, a, b, c, [], s3, []);
    assert [a, b, c] + [] == [a, b, c] && e + [] == e;
  }

  /** Where the steps of a whole call lead. */
  function CallLeadsTo(s: State, t: nat, line: string, io: Io): State
    requires t < |s.threads| && WritesFit(|line|, io.writes)
  {
    var r := SectionOf(s.file, line, io);
    if r.end.Returned? then s.(file := r.file)
    else State(r.file, Some(t), s.threads[t := Writing(line, Put(|line|, io.writes))])
  }

  /**
    * A thread that logs while no other holds the lock can take the steps of its call without a break. They leave the
    * file as the call by itself does, and a call that has returned has had exactly the events of its critical section.
    */
  lemma CallIsOneSection(s: State, t: nat, line: string, io: Io)
    requires t < |s.threads| && s.threads[t].Out? && s.holder.None? && |line| <= MAX_LINE
    requires WritesFit(|line|, io.writes)
    ensures var steps := CallSteps(s.file, t, line, io); var r := SectionOf(s.file, line, io);
            && Schedule(s, steps) && Execute(s, steps) == CallLeadsTo(s, t, line, io)
            && Execute(s, steps).file == r.file
            && (r.end.Returned? ==> History(s, steps) == SectionEvents(s.file, line, Put(|line|, io.writes), io))
  {
    var k := Put(|line|, io.writes);
    if Due(s.file, io) && !(io.truncateOk && io.seekOk) {
      GivenUpLeads(s, t, line, io);
      assert CallSteps(s.file, t, line, io)
          == [Start(t, line), Acquire(t), CheckSize(t, io.statOk, io.truncateOk, io.seekOk)];
    } else {
      var s1 := Checked(s, t, line, io);
      var steps := WriteSteps(t, |line|, io.writes);
      var es := LoopEvents(line, 0, |line|, io.writes);
      WriteLoopLeads(s1, t, line, 0, |line|, io.writes);
      WrittenIsCall(s, t, line, io);
      assert CallSteps(s.file, t, line, io)
          == [Start(t, line), Acquire(t), CheckSize(t, io.statOk, io.truncateOk, io.seekOk)] + steps;
      hide WriteSteps, Put, Ended, Written, Checked;
      EntryLeads(s, t, line, io, steps, CallLeadsTo(s, t, line, io), es);
    }
  }

  lemma WrittenIsCall(s: State, t: nat, line: string, io: Io)
    requires t < |s.threads| && s.threads[t].Out? && s.holder.None? && WritesFit(|line|, io.writes)
    requires Due(s.file, io) ==> io.truncateOk && io.seekOk
    ensures Written(Checked(s, t, line, io), t, line, 0, |line|, io.writes) == CallLeadsTo(s, t, line, io)
  {
    hide Put, Ended;
    var k := Put(|line|, io.writes);
    assert line[0..k] == line[..k];
    assert s.threads[t := Writing(line, 0)][t := Out] == s.threads;
    assert s.threads[t := Writing(line, 0)][t := Writing(line, k)] == s.threads[t := Writing(line, k)];
  }

  /**
    * A call that gets as far as writing has put down its whole line exactly when it returns success, and nothing but
    * a failed write makes it return without that.
    */
  lemma {:induction false} WholeLineExactlyOnSuccess(len: nat, writes: seq<int>)
    requires WritesFit(len, writes)
    ensures Ended(len, writes) == Returned(RL_SUCCESS) <==> Put(len, writes) == len
    ensures Ended(len, writes) == Returned(RL_FAILED) ==> -1 in writes
    ensures Ended(len, writes).Returned? ==> Ended(len, writes).code in {RL_SUCCESS, RL_FAILED}
    decreases |writes|
  {
    if len > 0 && writes != [] && writes[0] != -1 {
      WholeLineExactlyOnSuccess(len - writes[0], writes[1..]);
      if Ended(len, writes) == Returned(RL_FAILED) {
        assert -1 in writes[1..];
      }
    }
  }

  /**
    * The writes put down what they have taken together: enough of it is success, a failed write before that is not,
    * whatever calls are recorded behind it.
    */
  lemma {:induction false} PutsWhatWritesTake(len: nat, ks: seq<int>, rest: seq<int>)
    requires (forall i :: 0 <= i < |ks| ==> ks[i] >= 0) && Sum(ks) <= len
    ensures WritesFit(len, ks) && Put(len, ks) == Sum(ks) >= 0
    ensures Ended(len, ks) == if Sum(ks) == len then Returned(0) else StillWriting
    ensures Sum(ks) < len ==> WritesFit(len, ks + [-1] + rest) && Put(len, ks + [-1] + rest) == Sum(ks)
                              && Ended(len, ks + [-1] + rest) == Returned(-1)
  {
    if ks == [] {
      assert ks + [-1] + rest == [-1] + rest;
    } else {
      SumAtLeastFirst(ks);
      PutsWhatWritesTake(len - ks[0], ks[1..], rest);
      assert (ks + [-1] + rest)[1..] == ks[1..] + [-1] + rest;
    }
  }

  lemma {:induction false} SumAtLeastFirst(ks: seq<int>)
    requires forall i :: 0 <= i < |ks| ==> ks[i] >= 0
    ensures Sum(ks) >= 0 && (ks != [] ==> Sum(ks) >= ks[0])
  {
    if ks != [] {
      SumAtLeastFirst(ks[1..]);
    }
  }

  /**
    * What a call does to the file, in figures: beyond 50 MiB it is emptied if the kernel allows both steps, and the
    * call gives up otherwise; then as much of the line as the writes take stands behind what was left.
    */
  lemma SectionExactly(before: string, line: string, io: Io)
    requires WritesFit(|line|, io.writes)
    ensures var r := SectionOf(before, line, io);
            if io.statOk && |before| > 52428800 && !io.truncateOk then r == Section(before, Returned(-1))
            else if io.statOk && |before| > 52428800 && !io.seekOk then r == Section("", Returned(-1))
            else var base := if io.statOk && |before| > 52428800 then "" else before;
                 && r.file == base + line[..Put(|line|, io.writes)]
                 && (r.end == Returned(0) <==> r.file == base + line)
                 && (r.end == Returned(-1) ==> -1 in io.writes)
  {
    WholeLineExactlyOnSuccess(|line|, io.writes);
    var n := Put(|line|, io.writes);
    assert line[..|line|] == line;
    if n < |line| {
      assert |line[..n]| < |line|;
    }
  }
}
