/** The text of one log line and how long it can be. */
module LogLine {
  import opened CText
  import opened CTypes
  import opened DecimalText
  import StrNumber

  /** RL_LOG_BUF_SIZE, and the size of the buffer a line is formatted into. */
  const MESSAGE_BUF: nat := 1024
  const LINE_BUF: nat := 1024 + 64

  /** Room for the process name, of which fgets may use all but the last two bytes. */
  const NAME_BUF: nat := 17

  datatype Level = Normal | Error | Warn | Info | Debug

  function Rank(l: Level): nat {
    match l
    case Normal => 0
    case Error => 1
    case Warn => 2
    case Info => 3
    case Debug => 4
  }

  function LevelName(l: Level): string {
    match l
    case Error => "error"
    case Warn => "warn"
    case Info => "info"
    case _ => "debug"
  }

  /** Wall-clock fields as localtime_r fills them in; `sec` may be a leap second. */
  datatype Clock = Clock(hour: nat, min: nat, sec: nat) {
    predicate Valid() {
      hour < 24 && min < 60 && sec <= 60
    }
  }

  /** %02d for the two-digit numbers of a clock. */
  function TwoDigits(n: nat): string {
    if n < 10 then "0" + Digits(n) else Digits(n)
  }

  function Format(level: Level, clock: Clock, name: string, pid: int32, tid: int32, message: string): string {
    if level == Normal then message
    else TwoDigits(clock.hour) + (":" + (TwoDigits(clock.min) + (":" + (TwoDigits(clock.sec)
         + ("-" + (name + ("-p" + Numbers(level, pid, tid, message))))))))
  }

  /** The rest of a line from the process number on. */
  function Numbers(level: Level, pid: int32, tid: int32, message: string): string {
    Decimal(pid) + ("-t" + (Decimal(tid) + (" " + (LevelName(level) + (":" + (message + "\n"))))))
  }

  /** fgets(buf, size, f): at most size - 1 characters, up to and including the first newline. */
  function Fgets(text: string, size: nat): (r: string)
    requires size > 0
    ensures r <= text && |r| < size
  {
    var line := CutAt(text, '\n');
    var whole := if line == text then text else text[..|line|+1];
    if |whole| < size then whole else text[..size-1]
  }

  /** The first line of a text, cut to at most `n` characters. */
  function FirstLine(text: string, n: nat): (r: string)
    ensures r <= text && '\n' !in r && |r| <= n
    ensures |r| == n || |r| == |text| || text[|r|] == '\n'
  {
    var line := CutAt(text, '\n');
    if |line| <= n then line else line[..n]
  }

  /** What fgets has read, up to its newline, is the start of the first line. */
  lemma FgetsReadsFirstLine(text: string, size: nat)
    requires size > 0
    ensures CutAt(Fgets(text, size), '\n') == FirstLine(text, size - 1)
  {
  }

  /** The process name rl_log_init keeps, or None when /proc/self/comm is empty. */
  function ReadName(comm: string): (r: Option<string>)
    ensures r == if comm == "" then None else Some(FirstLine(comm, 15))
  {
    if comm == "" then None
    else
      FgetsReadsFirstLine(comm, NAME_BUF - 1);
      Some(CutAt(Fgets(comm, NAME_BUF - 1), '\n'))
  }

  // ----- the bound -----

  lemma ClockLength(n: nat)
    requires n < 100
    ensures |TwoDigits(n)| == 2
  {
    if n >= 10 {
      assert Digits(n / 10) == [Digit(n / 10)];
    }
  }

  /**
    * Whatever the clock, name, process, thread, level and message, a line leaves at least six bytes of the buffer free,
    * so the length snprintf returns is the number of characters really in the buffer.
    */
  lemma LineFits(level: Level, clock: Clock, name: string, pid: int32, tid: int32, message: string)
    requires clock.Valid() && |name| <= 15 && |message| < 1024
    ensures |Format(level, clock, name, pid, tid, message)| <= 1081 == LINE_BUF - 7
  {
    ClockLength(clock.hour);
    ClockLength(clock.min);
    ClockLength(clock.sec);
    Int32Length(pid);
    Int32Length(tid);
    assert |LevelName(level)| <= 5;
  }

  /** The bound is reached: no shorter buffer than 1082 bytes, terminator included, would do. */
  lemma LongestLine(message: string)
    requires |message| == 1023
    ensures |Format(Error, Clock(0, 0, 0), "abcdefghijklmno", INT_MIN, INT_MIN, message)| == 1081
  {
  }

  /** A line of level Normal is the message itself; all others have the same shape and their level's word. */
  lemma LineExactly(level: Level, word: string, clock: Clock, name: string, pid: int32, tid: int32, message: string)
    requires (level, word) in {(Error, "error"), (Warn, "warn"), (Info, "info"), (Debug, "debug")} && clock.Valid()
    ensures Format(Normal, clock, name, pid, tid, message) == message
    ensures var line := Format(level, clock, name, pid, tid, message);
            && |line| >= 8
            && line == line[..2] + (":" + (line[3..5] + (":" + (line[6..8] + ("-" + (name + ("-p" + (Decimal(pid)
                       + ("-t" + (Decimal(tid) + (" " + (word + (":" + (message + "\n"))))))))))))))
  {
    ClockLength(clock.hour);
    ClockLength(clock.min);
    ClockLength(clock.sec);
    assert LevelName(level) == word;
    hide TwoDigits, Decimal, LevelName;
    ClockSlices(TwoDigits(clock.hour), TwoDigits(clock.min), TwoDigits(clock.sec),
                "-" + (name + ("-p" + Numbers(level, pid, tid, message))));
  }

  lemma ClockSlices(h: string, mi: string, s: string, n: string)
    requires |h| == |mi| == |s| == 2
    ensures var line := h + (":" + (mi + (":" + (s + n))));
            |line| >= 8 && line[..2] == h && line[3..5] == mi && line[6..8] == s
  {
  }

  /** The end of a line, and a whole line, as they stand in the file. */
  lemma SampleNumbers()
    ensures Numbers(Error, 42, -1, "hi") == "42-t-1 error:hi\n"
  {
    assert Digits(42) == "42" && Digits(1) == "1";
    hide Digits;
    assert "-" + "1" == "-1" && "hi" + "\n" == "hi\n";
    assert " " + ("error" + (":" + "hi\n")) == " error:hi\n";
    assert "-t" + ("-1" + " error:hi\n") == "-t-1 error:hi\n";
  }

  lemma SampleLine()
    ensures Format(Error, Clock(7, 8, 19), "ap", 42, -1, "hi") == "07:08:19-ap-p" + "42-t-1 error:hi\n"
  {
    SampleNumbers();
    SampleClock();
    hide Numbers, TwoDigits;
    var rest := "42-t-1 error:hi\n";
    Prepend("ap", "-p", rest, "ap-p");
    Prepend("-", "ap-p", rest, "-ap-p");
    Prepend("19", "-ap-p", rest, "19-ap-p");
    Prepend(":", "19-ap-p", rest, ":19-ap-p");
    Prepend("08", ":19-ap-p", rest, "08:19-ap-p");
    Prepend(":", "08:19-ap-p", rest, ":08:19-ap-p");
    Prepend("07", ":08:19-ap-p", rest, "07:08:19-ap-p");
  }

  lemma Prepend(a: string, b: string, rest: string, c: string)
    requires a + b == c
    ensures a + (b + rest) == c + rest
  {
  }

  lemma SampleClock()
    ensures TwoDigits(7) == "07" && TwoDigits(8) == "08" && TwoDigits(19) == "19"
  {
    assert Digits(7) == "7" && Digits(8) == "8" && Digits(1) == "1";
  }

  /** The part of a line from its n-th character on. */
  function From(line: string, n: nat): string {
    if n <= |line| then line[n..] else ""
  }

  lemma FromBehind(a: string, b: string, n: nat)
    ensures From(a + b, |a| + n) == From(b, n)
    ensures From(b, 0) == b
  {
  }

  /** The three numbers of the clock can be read back from their places. */
  lemma ClockReadsBack(level: Level, clock: Clock, name: string, pid: int32, tid: int32, message: string)
    requires level != Normal && clock.Valid()
    ensures var line := Format(level, clock, name, pid, tid, message);
            && StrNumber.Atoi(line) == clock.hour && StrNumber.Atoi(From(line, 3)) == clock.min
            && StrNumber.Atoi(From(line, 6)) == clock.sec
  {
    var h, mi, s := TwoDigits(clock.hour), TwoDigits(clock.min), TwoDigits(clock.sec);
    var n := "-" + (name + ("-p" + Numbers(level, pid, tid, message)));
    TwoDigitsRead(clock.hour, ":" + (mi + (":" + (s + n))));
    TwoDigitsRead(clock.min, ":" + (s + n));
    TwoDigitsRead(clock.sec, n);
    hide TwoDigits, Numbers, From, StrNumber.Atoi;
    ClockLength(clock.hour);
    ClockLength(clock.min);
    ClockLength(clock.sec);
    Steps(h, mi, s, n);
  }

  /** Behind the clock stands the name, and behind it the numbers, level and message. */
  lemma NameReadsBack(level: Level, clock: Clock, name: string, pid: int32, tid: int32, message: string)
    requires level != Normal && clock.Valid()
    ensures var line := Format(level, clock, name, pid, tid, message);
            name <= From(line, 9) && From(line, 11 + |name|) == Numbers(level, pid, tid, message)
  {
    var rest := Numbers(level, pid, tid, message);
    hide Numbers, From, TwoDigits;
    ClockLength(clock.hour);
    ClockLength(clock.min);
    ClockLength(clock.sec);
    Steps(TwoDigits(clock.hour), TwoDigits(clock.min), TwoDigits(clock.sec), "-" + (name + ("-p" + rest)));
    var line := Format(level, clock, name, pid, tid, message);
    assert From(line, 8 + 1) == From("-" + (name + ("-p" + rest)), 1);
    FromBehind("-", name + ("-p" + rest), 0);
    assert From(line, 8 + (1 + |name| + 2)) == From("-" + (name + ("-p" + rest)), 1 + |name| + 2);
    FromBehind("-", name + ("-p" + rest), |name| + 2);
    FromBehind(name, "-p" + rest, 2);
    FromBehind("-p", rest, 0);
  }

  lemma Steps(h: string, mi: string, s: string, n: string)
    requires |h| == |mi| == |s| == 2
    ensures var line := h + (":" + (mi + (":" + (s + n))));
            && From(line, 3) == mi + (":" + (s + n)) && From(line, 6) == s + n
            && forall k: nat :: From(line, 8 + k) == From(n, k)
  {
  }

  /** Both numbers, the level and the whole message can be read back from their places. */
  lemma NumbersReadBack(level: Level, pid: int32, tid: int32, message: string)
    ensures var rest := Numbers(level, pid, tid, message); var t := |Decimal(pid)| + 2; var l := t + |Decimal(tid)| + 1;
            && StrNumber.Atoi(rest) == pid && StrNumber.Atoi(From(rest, t)) == tid
            && LevelName(level) <= From(rest, l) && From(rest, l + |LevelName(level)| + 1) == message + "\n"
  {
    hide StrNumber.Atoi, From, Decimal, LevelName;
    NumberSteps(Decimal(pid), Decimal(tid), LevelName(level), message + "\n");
    TwoNumbersRead(pid, tid, LevelName(level) + (":" + (message + "\n")));
  }

  lemma TwoNumbersRead(pid: int, tid: int, r: string)
    ensures StrNumber.Atoi(Decimal(pid) + ("-t" + (Decimal(tid) + (" " + r)))) == pid
    ensures StrNumber.Atoi(Decimal(tid) + (" " + r)) == tid
  {
    hide Decimal, StrNumber.Atoi;
    StrNumber.AtoiReadsPrefix(pid, "-t" + (Decimal(tid) + (" " + r)));
    StrNumber.AtoiReadsPrefix(tid, " " + r);
  }

  lemma FromFrom(line: string, n: nat, k: nat)
    ensures From(From(line, n), k) == From(line, n + k)
  {
  }

  lemma NumberSteps(p: string, t: string, l: string, m: string)
    ensures var rest := p + ("-t" + (t + (" " + (l + (":" + m)))));
            && From(rest, |p| + 2) == t + (" " + (l + (":" + m)))
            && l <= From(rest, |p| + 2 + |t| + 1)
            && From(rest, |p| + 2 + |t| + 1 + |l| + 1) == m
  {
    var level := l + (":" + m);
    var thread := t + (" " + level);
    var rest := p + ("-t" + thread);
    hide From;
    FromBehind(p, "-t" + thread, 2);
    FromBehind("-t", thread, 0);
    FromFrom(rest, |p| + 2, |t| + 1);
    FromBehind(t, " " + level, 1);
    FromBehind(" ", level, 0);
    FromFrom(rest, |p| + 2 + |t| + 1, |l| + 1);
    FromBehind(l, ":" + m, 1);
    FromBehind(":", m, 0);
  }

  lemma TwoDigitsRead(n: nat, rest: string)
    requires n < 100 && rest != "" && !IsDigit(rest[0])
    ensures StrNumber.Atoi(TwoDigits(n) + rest) == n
  {
    var s := TwoDigits(n);
    ClockLength(n);
    assert IsDigit((s + rest)[0]);
    assert StrNumber.SkipSpace(s + rest) == s + rest;
    StrNumber.DigitsThenRest(s, rest);
    ValueOfDigits(n);
    if n < 10 {
      assert s[..1] == "0" && s[1] == Digit(n) && ValueOf(s[..1]) == 0;
    }
  }
}
