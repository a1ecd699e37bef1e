/** The logger of one process: its settings, its level filter, and the write loop of one call. */
module Logger {
  import opened CText
  import opened CTypes
  import opened LogLine
  import opened LogWriter

  /** What the kernel answers during one call; `writes` are the results of successive write calls. */
  datatype Io = Io(statOk: bool, truncateOk: bool, seekOk: bool, writes: seq<int>)

  /** write takes at most what it is offered, or fails with -1. */
  predicate WritesFit(len: nat, writes: seq<int>) {
    writes == [] || writes[0] == -1 || (0 <= writes[0] <= len && WritesFit(len - writes[0], writes[1..]))
  }

  /** The call has returned, or its last recorded write still left characters to go. */
  datatype CallEnd = Returned(code: int32) | StillWriting

  predicate Due(before: string, io: Io) {
    io.statOk && |before| > LIMIT
  }

  /** The characters a call puts down: its line, or a prefix of it when a write fails or is still to come. */
  ghost predicate PutsDown(base: string, after: string, line: string, n: nat, io: Io, end: CallEnd) {
    && n <= |line| && after == base + line[..n]
    && match end
       case Returned(code) =>
         if code == RL_SUCCESS then n == |line| else n < |line| && code == RL_FAILED && -1 in io.writes
       case StillWriting => n < |line|
  }

  /** What one call does to the file: nothing, or a truncation if due, then a prefix of its line. */
  ghost predicate OneSection(before: string, after: string, line: string, io: Io, end: CallEnd) {
    if Due(before, io) && !io.truncateOk then after == before && end == Returned(RL_FAILED)
    else if Due(before, io) && !io.seekOk then after == "" && end == Returned(RL_FAILED)
    else if Due(before, io) then exists n :: PutsDown("", after, line, n, io, end)
    else exists n :: PutsDown(before, after, line, n, io, end)
  }

  /** How many of `len` characters go down before a write fails or the recorded writes end. */
  function Put(len: nat, writes: seq<int>): (n: nat)
    requires WritesFit(len, writes)
    ensures n <= len
  {
    if len == 0 || writes == [] || writes[0] == -1 then 0 else writes[0] + Put(len - writes[0], writes[1..])
  }

  function Ended(len: nat, writes: seq<int>): CallEnd
    requires WritesFit(len, writes)
  {
    if len == 0 then Returned(RL_SUCCESS)
    else if writes == [] then StillWriting
    else if writes[0] == -1 then Returned(RL_FAILED)
    else Ended(len - writes[0], writes[1..])
  }

  datatype Section = Section(file: string, end: CallEnd)

  /** What one call makes of the file, and how it ends. */
  function SectionOf(before: string, line: string, io: Io): Section
    requires WritesFit(|line|, io.writes)
  {
    if Due(before, io) && !io.truncateOk then Section(before, Returned(RL_FAILED))
    else if Due(before, io) && !io.seekOk then Section("", Returned(RL_FAILED))
    else Section((if Due(before, io) then "" else before) + line[..Put(|line|, io.writes)], Ended(|line|, io.writes))
  }

  class Process {
    var level: Level
    var fdOpen: bool
    var name: string
    var pid: int32
    var file: string

    ghost predicate Valid()
      reads this
    {
      |name| <= NAME_BUF - 2
    }

    constructor (file: string)
      ensures Valid() && !fdOpen && this.file == file
    {
      level, fdOpen, name, pid, this.file := Normal, false, "", 0, file;
    }

    /** `comm` is what /proc/self/comm holds, None if it cannot be opened; `opens` says whether the log file can. */
    method Init(level: Level, comm: Option<string>, pid: int32, opens: bool) returns (code: int32)
      requires Valid()
      modifies this
      ensures Valid() && file == old(file) && this.level == level
      ensures var known := if comm.None? then None else ReadName(comm.value);
              && code == (if known.Some? && opens then 0 else -1)
              && (known.None? ==> name == old(name) && this.pid == old(this.pid) && fdOpen == old(fdOpen))
              && (known.Some? ==> Some(name) == known && this.pid == pid && fdOpen == opens)
    {
      this.level := level;
      if comm.None? || comm.value == [] {
        return RL_FAILED;
      }
      name := CutAt(Fgets(comm.value, NAME_BUF - 1), '\n');
      this.pid := pid;
      fdOpen := opens;
      return if opens then RL_SUCCESS else RL_FAILED;
    }

    /** The short-write loop: carries on behind the characters written so far. */
    method WriteAll(line: string, io: Io) returns (end: CallEnd, written: nat)
      requires WritesFit(|line|, io.writes)
      modifies this`file
      ensures PutsDown(old(file), file, line, written, io, end)
      ensures written == Put(|line|, io.writes) && end == Ended(|line|, io.writes)
    {
      written := 0;
      var calls := 0;
      while written < |line| && calls < |io.writes|
        invariant written <= |line| && calls <= |io.writes|
        invariant file == old(file) + line[..written]
        invariant WritesFit(|line| - written, io.writes[calls..])
        invariant written + Put(|line| - written, io.writes[calls..]) == Put(|line|, io.writes)
        invariant Ended(|line| - written, io.writes[calls..]) == Ended(|line|, io.writes)
      {
        var ret := io.writes[calls];
        assert io.writes[calls..][0] == ret && io.writes[calls..][1..] == io.writes[calls+1..];
        if ret == -1 {
          return Returned(RL_FAILED), written;
        }
        assert line[..written + ret] == line[..written] + line[written..written + ret];
        file := file + line[written..written + ret];
        written := written + ret;
        calls := calls + 1;
      }
      end := if written == |line| then Returned(RL_SUCCESS) else StillWriting;
    }

    /** write_rl_log: format, lock, truncate if due, and write until the whole line is down. */
    method WriteLog(level: Level, message: string, clock: Clock, tid: int32, io: Io) returns (end: CallEnd)
      requires Valid() && clock.Valid() && |message| < MESSAGE_BUF
      requires WritesFit(|Format(level, clock, name, pid, tid, message)|, io.writes)
      modifies this`file
      ensures |Format(level, clock, name, pid, tid, message)| <= 1081
      ensures !fdOpen ==> end == Returned(-1) && file == old(file)
      ensures fdOpen ==> OneSection(old(file), file, Format(level, clock, name, pid, tid, message), io, end)
      ensures fdOpen ==> Section(file, end) == SectionOf(old(file), Format(level, clock, name, pid, tid, message), io)
    {
      LineFits(level, clock, name, pid, tid, message);
      if !fdOpen {
        return Returned(RL_FAILED);
      }
      var line := Format(level, clock, name, pid, tid, message);
      if io.statOk && |file| > LIMIT {
        if !io.truncateOk {
          return Returned(RL_FAILED);
        }
        file := "";
        if !io.seekOk {
          return Returned(RL_FAILED);
        }
      }
      var n;
      end, n := WriteAll(line, io);
    }

    /** rl_log_generic: `text` is the whole message vsnprintf would produce; longer ones are refused, not cut. */
    method Log(level: Level, text: string, encodes: bool, clock: Clock, tid: int32, io: Io) returns (end: CallEnd)
      requires Valid() && clock.Valid()
      requires WritesFit(|Format(level, clock, name, pid, tid, CutAt(text, '\0'))|, io.writes)
      modifies this`file
      ensures var passing :=
                match this.level
                case Normal => {Level.Normal}
                case Error => {Level.Normal, Level.Error}
                case Warn => {Level.Normal, Level.Error, Level.Warn}
                case Info => {Level.Normal, Level.Error, Level.Warn, Level.Info}
                case Debug => {Level.Normal, Level.Error, Level.Warn, Level.Info, Level.Debug};
              if level in passing && encodes && |text| < 1024 && fdOpen then
                var line := Format(level, clock, name, pid, tid, CutAt(text, '\0'));
                OneSection(old(file), file, line, io, end) && Section(file, end) == SectionOf(old(file), line, io)
              else end == Returned(-1) && file == old(file)
    {
      if Rank(this.level) < Rank(level) {
        return Returned(RL_FAILED);
      }
      if !encodes || |text| >= MESSAGE_BUF {
        return Returned(RL_FAILED);
      }
      end := WriteLog(level, CutAt(text, '\0'), clock, tid, io);
    }
  }
}
