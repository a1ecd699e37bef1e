/** How the way a response is cut into pieces can and cannot change what is read from it. */
module TimeReaderTheorems {
  import opened CText
  import opened CTypes
  import opened TimeReader

  // ----- searching in longer and longer texts -----

  lemma MatchExtends(h: string, s: string, t: string, i: nat)
    requires h <= s && i + |t| <= |h|
    ensures MatchAt(s, t, i) <==> MatchAt(h, t, i)
  {
  }

  /** What is found in a text is found at the same place in any longer one. */
  lemma IndexExtends(h: string, s: string, t: string)
    requires h <= s && IndexOf(h, t).Some?
    ensures IndexOf(s, t) == IndexOf(h, t)
  {
    var i := IndexOf(h, t).value;
    MatchExtends(h, s, t, i);
    forall j | 0 <= j < i ensures !MatchAt(s, t, j) {
      MatchExtends(h, s, t, j);
    }
    IndexIs(s, t, i);
  }

  lemma IndexMissing(h: string, s: string, t: string)
    requires h <= s && IndexOf(s, t).None?
    ensures IndexOf(h, t).None?
  {
    if IndexOf(h, t).Some? {
      IndexExtends(h, s, t);
    }
  }

  lemma {:induction false} CutExtends(s: string, c: char, t: nat, u: nat)
    requires t <= u <= |s|
    ensures CutAt(s[..t], c) <= CutAt(s[..u], c)
    decreases t
  {
  }

  // ----- the receive loop -----

  /** The first complete header section of the stream ends at `h + 4`, in time for the buffer, with no NUL before. */
  predicate HeaderEndsAt(stream: string, h: nat) {
    && IndexOf(stream, BLANK) == Some(h)
    && h + 4 <= CAP - 1 && NUL !in stream[..h+4]
  }

  /** The recv calls deliver at least `need` characters before the first one that fails. */
  predicate Delivers(recvs: seq<int>, need: int)
    decreases |recvs|
  {
    need <= 0 || (recvs != [] && recvs[0] > 0 && Delivers(recvs[1..], need - recvs[0]))
  }

  lemma HeadIsMatched(stream: string, h: nat)
    requires HeaderEndsAt(stream, h)
    ensures h + 4 <= |stream| && h + 4 <= CAP - 1 && MatchAt(stream[..h+4], BLANK, h)
  {
  }

  /** The loop can see the blank line exactly from the moment it has all of the header section. */
  lemma SeenWhenComplete(stream: string, h: nat, t: nat)
    requires HeaderEndsAt(stream, h) && t <= |stream|
    ensures IndexOf(CutAt(stream[..t], NUL), BLANK).Some? <==> t >= h + 4
    ensures t >= h + 4 ==> stream[..h+4] <= CutAt(stream[..t], NUL)
  {
    var s := CutAt(stream[..t], NUL);
    var head := stream[..h+4];
    if t >= h + 4 {
      CutExtends(stream, NUL, h + 4, t);
      CutAll(head, NUL);
      MatchExtends(head, stream, BLANK, h);
      assert IndexOf(head, BLANK).Some?;
      IndexExtends(head, s, BLANK);
    } else if IndexOf(s, BLANK).Some? {
      var i := IndexOf(s, BLANK).value;
      assert s <= stream;
      IndexExtends(s, stream, BLANK);
    }
  }

  /** The loop is complete from `need` characters on, and not before. */
  ghost predicate CompleteFrom(stream: string, need: nat) {
    && 0 < need <= Min(CAP - 1, |stream|)
    && forall t: nat :: t <= Min(CAP - 1, |stream|) ==> (Complete(stream, t) <==> t >= need)
  }

  /** Room and stream permitting, a recv call brings what it has to offer, or all that is needed. */
  lemma OneDelivery(recvs: seq<int>, room: nat, left: nat, need: nat)
    requires 0 < need <= room && need <= left
    ensures var k := Received(recvs, room, left);
            && k <= room && k <= left
            && (Delivers(recvs, need) <==> k >= need || (0 < k < need && Delivers(recvs[1..], need - k)))
            && (k > 0 ==> recvs != [])
  {
  }

  /** From `total` characters on, the loop ends with at least `need` exactly if the network delivers that much. */
  ghost predicate EndsRight(stream: string, recvs: seq<int>, total: nat, need: nat)
    requires total <= |stream| && total < CAP - 1
  {
    var g := Receive(stream, recvs, total);
    (g.ok <==> Delivers(recvs, need - total)) && (g.ok ==> need <= g.total <= CAP - 1)
  }

  /** The three ways a turn can go: nothing comes, enough comes, or the loop goes on. */
  lemma NothingComes(stream: string, recvs: seq<int>, total: nat, need: nat)
    requires CompleteFrom(stream, need) && total < need
    requires Received(recvs, CAP - 1 - total, |stream| - total) <= 0
    ensures EndsRight(stream, recvs, total, need)
  {
    hide Complete, Receive, Received, Delivers;
    ReceiveFails(stream, recvs, total);
    OneDelivery(recvs, CAP - 1 - total, |stream| - total, need - total);
  }

  lemma EnoughComes(stream: string, recvs: seq<int>, total: nat, need: nat)
    requires CompleteFrom(stream, need) && total < need
    requires total + Received(recvs, CAP - 1 - total, |stream| - total) >= need
    ensures EndsRight(stream, recvs, total, need)
  {
    var t := total + Received(recvs, CAP - 1 - total, |stream| - total);
    assert need <= CAP - 1 && need <= |stream|;
    hide Complete, Receive, Received, Delivers, CompleteFrom;
    OneDelivery(recvs, CAP - 1 - total, |stream| - total, need - total);
    CompleteAt(stream, need, t);
    ReceiveStops(stream, recvs, total, t);
  }

  lemma MoreToCome(stream: string, recvs: seq<int>, total: nat, need: nat, t: nat)
    requires CompleteFrom(stream, need) && total < t < need
    requires t == total + Received(recvs, CAP - 1 - total, |stream| - total)
    requires recvs != [] && EndsRight(stream, recvs[1..], t, need)
    ensures EndsRight(stream, recvs, total, need)
  {
    assert need <= CAP - 1 && need <= |stream|;
    hide Complete, Receive, Received, Delivers, CompleteFrom;
    OneDelivery(recvs, CAP - 1 - total, |stream| - total, need - total);
    CompleteAt(stream, need, t);
    ReceiveGoesOn(stream, recvs, total, t);
    assert need - total - (t - total) == need - t;
  }

  lemma {:induction false} LoopReaches(stream: string, recvs: seq<int>, total: nat, need: nat)
    requires CompleteFrom(stream, need) && total < need
    ensures EndsRight(stream, recvs, total, need)
    decreases |recvs|
  {
    var k := Received(recvs, CAP - 1 - total, |stream| - total);
    assert k > 0 ==> recvs != [];
    hide CompleteFrom, Received, EndsRight;
    if k <= 0 {
      NothingComes(stream, recvs, total, need);
    } else if total + k >= need {
      EnoughComes(stream, recvs, total, need);
    } else {
      LoopReaches(stream, recvs[1..], total + k, need);
      MoreToCome(stream, recvs, total, need, total + k);
    }
  }

  lemma CompleteAt(stream: string, need: nat, t: nat)
    requires CompleteFrom(stream, need) && t <= CAP - 1 && t <= |stream|
    ensures Complete(stream, t) <==> t >= need
  {
    assert t <= Min(CAP - 1, |stream|);
  }

  ghost predicate NeverComplete(stream: string) {
    forall t: nat :: t <= |stream| ==> !Complete(stream, t)
  }

  /** Where no part of the stream completes the loop it never succeeds. */
  lemma {:induction false} LoopNeverEnds(stream: string, recvs: seq<int>, total: nat)
    requires |stream| < CAP - 1 && total <= |stream| && NeverComplete(stream)
    ensures !Receive(stream, recvs, total).ok
    decreases |recvs|
  {
    var k := Received(recvs, CAP - 1 - total, |stream| - total);
    hide NeverComplete, Received, Receive;
    if k <= 0 {
      ReceiveFails(stream, recvs, total);
    } else {
      ReceivedFits(recvs, CAP - 1 - total, |stream| - total);
      var t := total + k;
      assert !Complete(stream, t) by { NotCompleteAt(stream, t); }
      hide Complete;
      ReceiveGoesOn(stream, recvs, total, t);
      LoopNeverEnds(stream, recvs[1..], t);
    }
  }

  lemma NotCompleteAt(stream: string, t: nat)
    requires NeverComplete(stream) && t <= |stream|
    ensures !Complete(stream, t)
  {
  }

  lemma HeaderCompletes(stream: string, h: nat)
    requires HeaderEndsAt(stream, h)
    ensures CompleteFrom(stream, h + 4)
  {
    HeadIsMatched(stream, h);
    hide HeaderEndsAt, MatchAt, IndexOf, CutAt;
    forall t: nat | t <= Min(CAP - 1, |stream|) ensures Complete(stream, t) <==> t >= h + 4 {
      SeenWhenComplete(stream, h, t);
    }
  }

  /** The loop ends, with the whole header section in the buffer, exactly if the network delivers that much. */
  lemma LoopGetsHeader(stream: string, recvs: seq<int>, h: nat, total: nat)
    requires HeaderEndsAt(stream, h) && total < h + 4
    ensures total <= |stream| && total < CAP - 1
    ensures Receive(stream, recvs, total).ok <==> Delivers(recvs, h + 4 - total)
    ensures Receive(stream, recvs, total).ok ==> h + 4 <= Receive(stream, recvs, total).total <= CAP - 1
  {
    HeadIsMatched(stream, h);
    HeaderCompletes(stream, h);
    hide HeaderEndsAt, CompleteFrom, Receive, Delivers, IndexOf;
    LoopReaches(stream, recvs, total, h + 4);
  }

  /** The text the buffer can hold at most. */
  function Longest(stream: string): string {
    CutAt(stream[..Min(CAP - 1, |stream|)], NUL)
  }

  /** While the longest text has no blank line, only a full buffer completes the loop. */
  lemma NothingSeen(stream: string, t: nat)
    requires IndexOf(Longest(stream), BLANK).None? && t <= Min(CAP - 1, |stream|)
    ensures Complete(stream, t) <==> t >= CAP - 1
  {
    hide IndexOf, CutAt;
    CutExtends(stream, NUL, t, Min(CAP - 1, |stream|));
    IndexMissing(CutAt(stream[..t], NUL), Longest(stream), BLANK);
  }

  /** With a header section too long for the buffer all segmentations read the same 2047 characters. */
  lemma LongHeaderFillsBuffer(stream: string, recvs: seq<int>, total: nat)
    requires |stream| >= CAP - 1 > total && IndexOf(CutAt(stream[..CAP-1], NUL), BLANK).None?
    ensures var g := Receive(stream, recvs, total);
            (g.ok <==> Delivers(recvs, CAP - 1 - total)) && (g.ok ==> g.total == CAP - 1)
  {
    hide IndexOf, CutAt, Receive, Delivers, Complete;
    forall t: nat | t <= Min(CAP - 1, |stream|) ensures Complete(stream, t) <==> t >= CAP - 1 {
      NothingSeen(stream, t);
    }
    LoopReaches(stream, recvs, total, CAP - 1);
  }

  // ----- every stream -----

  /** How many characters the network must deliver for the loop to succeed, if it can. */
  function Needed(stream: string): Option<nat> {
    var h := IndexOf(Longest(stream), BLANK);
    if h.Some? then Some(h.value + 4) else if |stream| >= CAP - 1 then Some(CAP - 1) else None
  }

  /** The least text that is parsed once the loop has succeeded: the header section, or all there is room for. */
  function HeaderPart(stream: string): string {
    var h := IndexOf(Longest(stream), BLANK);
    if h.Some? then Longest(stream)[..h.value + 4] else Longest(stream)
  }

  predicate Delivered(stream: string, recvs: seq<int>) {
    Needed(stream).Some? && Delivers(recvs, Needed(stream).value)
  }

  lemma LongestIsPrefix(stream: string)
    ensures Longest(stream) <= stream && |Longest(stream)| <= CAP - 1 && NUL !in Longest(stream)
  {
  }

  /** A blank line that can be seen at all ends a header section, and every header section ends in one. */
  lemma SeenIsHeader(stream: string, h: nat)
    ensures HeaderEndsAt(stream, h) <==> IndexOf(Longest(stream), BLANK) == Some(h)
    ensures HeaderEndsAt(stream, h) ==> h + 4 <= |stream| && HeaderPart(stream) == stream[..h+4]
  {
    LongestIsPrefix(stream);
    var all := Longest(stream);
    if IndexOf(all, BLANK) == Some(h) {
      assert MatchAt(all, BLANK, h);
      assert all[..h+4] == stream[..h+4];
      hide IndexOf, Longest, MatchAt;
      IndexExtends(all, stream, BLANK);
      assert NUL !in stream[..h+4];
    } else if HeaderEndsAt(stream, h) {
      HeadIsMatched(stream, h);
      SeenWhenComplete(stream, h, Min(CAP - 1, |stream|));
      IndexExtends(all, stream, BLANK);
    }
  }

  /** For every stream: the loop succeeds exactly if enough of it is delivered, and then this is what is parsed. */
  lemma LoopSucceedsExactly(stream: string, recvs: seq<int>)
    ensures Receive(stream, recvs, 0).ok <==> Delivered(stream, recvs)
    ensures Delivered(stream, recvs) ==>
              var s := CutAt(stream[..Receive(stream, recvs, 0).total], NUL);
              ReadDate(stream, recvs) == Parse(s) && HeaderPart(stream) <= s <= Longest(stream)
    ensures !Delivered(stream, recvs) ==> ReadDate(stream, recvs) == ReceiveFailed
  {
    var h := IndexOf(Longest(stream), BLANK);
    if h.Some? {
      SeenIsHeader(stream, h.value);
      HeaderDelivered(stream, recvs, h.value);
    } else if |stream| >= CAP - 1 {
      hide IndexOf, CutAt, Receive, Delivers;
      LongHeaderFillsBuffer(stream, recvs, 0);
    } else {
      hide IndexOf, CutAt, Complete;
      forall t: nat | t <= |stream| ensures !Complete(stream, t) {
        NothingSeen(stream, t);
      }
      LoopNeverEnds(stream, recvs, 0);
    }
  }

  lemma HeaderDelivered(stream: string, recvs: seq<int>, h: nat)
    requires HeaderEndsAt(stream, h)
    ensures Receive(stream, recvs, 0).ok <==> Delivers(recvs, h + 4)
    ensures Delivers(recvs, h + 4) ==>
              && h + 4 <= |stream|
              && stream[..h+4] <= CutAt(stream[..Receive(stream, recvs, 0).total], NUL) <= Longest(stream)
  {
    var g := Receive(stream, recvs, 0);
    LoopGetsHeader(stream, recvs, h, 0);
    HeadIsMatched(stream, h);
    hide HeaderEndsAt, IndexOf, Receive, Delivers, CutAt;
    if g.ok {
      SeenWhenComplete(stream, h, g.total);
      CutExtends(stream, NUL, g.total, Min(CAP - 1, |stream|));
    }
  }

  // ----- the header decides -----

  predicate HeaderHasDate(head: string) {
    STATUS <= head && IndexOf(head, OK).Some? && IndexOf(head, DATE).Some?
  }

  /** "Date: " cannot reach into the blank line, so the line it begins ends inside the header section. */
  lemma DateLineEnds(head: string, h: nat)
    requires |head| == h + 4 && MatchAt(head, BLANK, h) && IndexOf(head, DATE).Some?
    ensures IndexOf(head[IndexOf(head, DATE).value..], CRLF).Some?
  {
    var d := IndexOf(head, DATE).value;
    MatchChar(head, BLANK, h, 0);
    MatchChar(head, BLANK, h, 1);
    MatchChar(head, BLANK, h, 2);
    MatchChar(head, BLANK, h, 3);
    if d + 6 > h {
      MatchChar(head, DATE, d, 5);
      MatchChar(head, DATE, d, if h <= d then 0 else h - d);
    }
    assert head[d..][h-d..h-d+2] == CRLF;
    assert MatchAt(head[d..], CRLF, h - d);
  }

  /** Whatever follows a header section with status and date, the same date is read. */
  lemma BodyDoesNotMatter(head: string, s: string, h: nat)
    requires head <= s && |head| == h + 4 && MatchAt(head, BLANK, h) && HeaderHasDate(head)
    ensures Parse(head).Date? && Parse(s) == Parse(head)
  {
    IndexExtends(head, s, OK);
    IndexExtends(head, s, DATE);
    DateLineEnds(head, h);
    var d := IndexOf(head, DATE).value;
    IndexExtends(head[d..], s[d..], CRLF);
    var e := IndexOf(head[d..], CRLF).value;
    DateEndsBehindName(head, d, e);
    assert s[d + 6..d + e] == head[d + 6..d + e];
  }

  /** The first line end behind the field name is the one behind the date. */
  lemma DateLineEndsAt(date: string, rest: string)
    requires '\r' !in date
    ensures IndexOf(DATE + date + (CRLF + rest), CRLF) == Some(6 + |date|)
  {
    var t := DATE + date + (CRLF + rest);
    var e := 6 + |date|;
    assert t[e..e+2] == CRLF;
    assert forall k :: 0 <= k < 6 ==> DATE[k] != '\r';
    forall j | 0 <= j < e ensures !MatchAt(t, CRLF, j) {
      assert t[j] == if j < 6 then DATE[j] else date[j - 6];
      if MatchAt(t, CRLF, j) {
        MatchChar(t, CRLF, j, 0);
      }
    }
    IndexIs(t, CRLF, e);
  }

  /** A date field written into a response is read back, whatever precedes and follows it. */
  lemma DateFieldIsReadBack(before: string, date: string, after: string)
    requires var s := before + DATE + date + CRLF + after;
             STATUS <= s && IndexOf(s, OK).Some? && forall j :: 0 <= j < |before| ==> !MatchAt(s, DATE, j)
    requires '\r' !in date
    ensures Parse(before + DATE + date + CRLF + after) == Date(date)
  {
    var s := before + DATE + date + CRLF + after;
    FieldStands(before, DATE, date, CRLF, after);
    IndexIs(s, DATE, |before|);
    hide IndexOf, MatchAt;
    DateLineEndsAt(date, after);
  }

  lemma FieldStands(before: string, name: string, text: string, end: string, after: string)
    ensures var s := before + name + text + end + after; var b := |before| + |name|;
            && s[|before|..|before|+|name|] == name && s[b..b+|text|] == text && s[b..|before|+(|name|+|text|)] == text
            && s[|before|..] == name + text + (end + after)
  {
  }

  /**
    * When the header section starts with "HTTP/" and contains "200 OK" and "Date: ", every way of cutting the stream
    * into pieces yields the same date, or fails because the network stopped before the header was complete.
    */
  lemma SameDateForEverySegmentation(stream: string, recvs: seq<int>, h: nat)
    requires HeaderEndsAt(stream, h) && HeaderHasDate(stream[..h+4])
    ensures Parse(stream[..h+4]).Date?
    ensures ReadDate(stream, recvs) == if Delivers(recvs, h + 4) then Parse(stream[..h+4]) else ReceiveFailed
  {
    hide HeaderEndsAt, HeaderHasDate, IndexOf, CutAt, Parse, MatchAt, Receive, Delivers;
    HeadIsMatched(stream, h);
    BodyDoesNotMatter(stream[..h+4], stream[..h+4], h);
    HeaderDelivered(stream, recvs, h);
    if Delivers(recvs, h + 4) {
      BodyDoesNotMatter(stream[..h+4], CutAt(stream[..Receive(stream, recvs, 0).total], NUL), h);
    }
  }

  /** One recv call that brings exactly `n` characters, of which the header section is a part. */
  lemma OneCall(stream: string, h: nat, n: nat)
    requires HeaderEndsAt(stream, h) && h + 4 <= n <= Min(CAP - 1, |stream|)
    ensures Delivers([n], h + 4)
    ensures ReadDate(stream, [n]) == Parse(CutAt(stream[..n], NUL))
  {
    LoopGetsHeader(stream, [n], h, 0);
    SeenWhenComplete(stream, h, n);
    assert Received([n], CAP - 1, |stream|) == n;
  }

  lemma HeaderInOneCall(stream: string, h: nat)
    requires HeaderEndsAt(stream, h)
    ensures h + 4 <= |stream| && Delivers([h + 4], h + 4) && ReadDate(stream, [h + 4]) == Parse(stream[..h+4])
  {
    HeadIsMatched(stream, h);
    assert NUL !in stream[..h+4];
    hide HeaderEndsAt, ReadDate, Delivers, IndexOf, Parse, CutAt;
    OneCall(stream, h, h + 4);
    CutAll(stream[..h+4], NUL);
  }

  lemma AllInOneCall(stream: string, h: nat)
    requires HeaderEndsAt(stream, h)
    ensures var n := Min(CAP - 1, |stream|); Delivers([n], h + 4) && ReadDate(stream, [n]) == Parse(Longest(stream))
    ensures h + 4 <= |stream| && stream[..h+4] <= Longest(stream)
  {
    HeadIsMatched(stream, h);
    assert NUL !in stream[..h+4];
    hide HeaderEndsAt, ReadDate, Delivers, IndexOf, Parse, CutAt;
    OneCall(stream, h, Min(CAP - 1, |stream|));
    CutAll(stream[..h+4], NUL);
    CutExtends(stream, NUL, h + 4, Min(CAP - 1, |stream|));
  }

  /** Every segmentation that delivers the header section reads this date. */
  ghost predicate AllAgreeOn(stream: string, h: nat, text: string) {
    forall recvs :: Delivers(recvs, h + 4) ==> ReadDate(stream, recvs) == Date(text)
  }

  /**
    * Exactly then: a date that every delivering segmentation agrees on exists if and only if the header section
    * itself has all three marks.
    */
  lemma DateIsCertainExactly(stream: string, h: nat)
    requires HeaderEndsAt(stream, h)
    ensures HeaderHasDate(stream[..h+4])
       <==> exists text :: AllAgreeOn(stream, h, text)
  {
    HeadIsMatched(stream, h);
    var head := stream[..h+4];
    hide HeaderEndsAt, ReadDate, Delivers, IndexOf;
    if HeaderHasDate(head) {
      SameDateForEverySegmentation(stream, [], h);
      var text := Parse(head).text;
      forall recvs | Delivers(recvs, h + 4) ensures ReadDate(stream, recvs) == Date(text) {
        SameDateForEverySegmentation(stream, recvs, h);
      }
      assert AllAgreeOn(stream, h, text);
    }
    if text :| AllAgreeOn(stream, h, text) {
      HeaderInOneCall(stream, h);
      assert Parse(head) == Date(text);
    }
  }

  /** The longer text has a mark that the shorter one lacks. */
  predicate MarkOnlyInRest(head: string, all: string) {
    || (IndexOf(head, OK).None? && IndexOf(all, OK).Some?)
    || (IndexOf(head, OK).Some? && IndexOf(head, DATE).None? && IndexOf(all, DATE).Some?)
  }

  lemma MarksDecide(head: string, all: string)
    requires head <= all && STATUS <= head && MarkOnlyInRest(head, all)
    ensures Parse(head) != Parse(all)
  {
  }

  /**
    * A status or date that is only in the body is read or missed depending on how the stream is cut: with every
    * header section that lacks a mark the rest of the first 2047 characters has, two segmentations disagree.
    */
  lemma BodyCanDecide(stream: string, h: nat)
    requires HeaderEndsAt(stream, h) && STATUS <= stream[..h+4] && MarkOnlyInRest(stream[..h+4], Longest(stream))
    ensures var n := Min(CAP - 1, |stream|);
            && Delivers([h + 4], h + 4) && Delivers([n], h + 4)
            && ReadDate(stream, [h + 4]) == Parse(stream[..h+4])
            && ReadDate(stream, [n]) == Parse(Longest(stream)) != Parse(stream[..h+4])
  {
    hide *;
    HeaderInOneCall(stream, h);
    AllInOneCall(stream, h);
    MarksDecide(stream[..h+4], Longest(stream));
  }

  /** "HTTP/" cannot reach into the blank line. */
  lemma StatusInHeader(head: string, s: string, h: nat)
    requires head <= s && |head| == h + 4 && head[h] == '\r'
    ensures STATUS <= s <==> STATUS <= head
  {
    assert s[h] == '\r' && forall k :: 0 <= k < 5 ==> STATUS[k] != '\r';
  }

  /** No text between the header section and the longest one is parsed differently when no mark is only in the rest. */
  lemma RestDoesNotMatter(head: string, s: string, all: string, h: nat)
    requires head <= s <= all && |head| == h + 4 && MatchAt(head, BLANK, h)
    requires !(STATUS <= head && MarkOnlyInRest(head, all))
    ensures Parse(s) == Parse(head)
  {
    if !(STATUS <= head) {
      MatchChar(head, BLANK, h, 0);
      StatusInHeader(head, s, h);
    } else if IndexOf(head, OK).None? {
      IndexMissing(s, all, OK);
    } else if IndexOf(head, DATE).None? {
      IndexMissing(s, all, DATE);
      IndexExtends(head, s, OK);
    } else {
      BodyDoesNotMatter(head, s, h);
    }
  }

  /** Every segmentation that delivers enough has this outcome. */
  ghost predicate AllRead(stream: string, o: Outcome) {
    forall recvs :: Delivered(stream, recvs) ==> ReadDate(stream, recvs) == o
  }

  /**
    * For every stream whatever: the outcome does not depend on how it is cut, as long as enough of it is delivered, if
    * and only if no mark that decides is missing in the header section and present in the rest of the first 2047
    * characters.
    */
  lemma SegmentationMattersExactly(stream: string)
    ensures (exists o :: AllRead(stream, o))
       <==> !(STATUS <= HeaderPart(stream) && MarkOnlyInRest(HeaderPart(stream), Longest(stream)))
  {
    var h := IndexOf(Longest(stream), BLANK);
    if h.None? {
      OneTextRead(stream);
    } else {
      SeenIsHeader(stream, h.value);
      HeadIsMatched(stream, h.value);
      hide *;
      if STATUS <= HeaderPart(stream) && MarkOnlyInRest(HeaderPart(stream), Longest(stream)) {
        TwoOutcomes(stream, h.value);
      } else {
        SameForAll(stream, h.value);
      }
    }
  }

  lemma TwoOutcomes(stream: string, h: nat)
    requires HeaderEndsAt(stream, h) && h + 4 <= |stream| && HeaderPart(stream) == stream[..h+4]
    requires STATUS <= HeaderPart(stream) && MarkOnlyInRest(HeaderPart(stream), Longest(stream))
    ensures !exists o :: AllRead(stream, o)
  {
    var n := Min(CAP - 1, |stream|);
    assert Needed(stream) == Some(h + 4) by { SeenIsHeader(stream, h); }
    hide HeaderEndsAt, Parse, ReadDate, Delivers, MarkOnlyInRest, Longest, IndexOf, Needed, HeaderPart, Min, AllRead;
    BodyCanDecide(stream, h);
    assert Delivered(stream, [h + 4]) && Delivered(stream, [n]);
    hide Delivered;
    forall o ensures !AllRead(stream, o) {
      NotBoth(stream, [h + 4], [n], o);
    }
  }

  lemma NotBoth(stream: string, recvs: seq<int>, others: seq<int>, o: Outcome)
    requires Delivered(stream, recvs) && Delivered(stream, others)
    requires ReadDate(stream, recvs) != ReadDate(stream, others)
    ensures !AllRead(stream, o)
  {
  }

  /** Without a visible blank line there is one text at most, so nothing depends on the cuts. */
  lemma OneTextRead(stream: string)
    requires IndexOf(Longest(stream), BLANK).None?
    ensures AllRead(stream, Parse(Longest(stream)))
    ensures !MarkOnlyInRest(HeaderPart(stream), Longest(stream))
  {
    assert HeaderPart(stream) == Longest(stream);
    hide Longest, IndexOf, Parse, ReadDate, Delivered, Receive, HeaderPart, CutAt;
    forall recvs | Delivered(stream, recvs) ensures ReadDate(stream, recvs) == Parse(Longest(stream)) {
      LoopSucceedsExactly(stream, recvs);
      Squeezed(Longest(stream), CutAt(stream[..Receive(stream, recvs, 0).total], NUL));
    }
  }

  lemma Squeezed(a: string, s: string)
    requires a <= s <= a
    ensures s == a
  {
  }

  lemma SameForAll(stream: string, h: nat)
    requires HeaderEndsAt(stream, h) && h + 4 <= |stream| && HeaderPart(stream) == stream[..h+4]
    requires MatchAt(stream[..h+4], BLANK, h)
    requires !(STATUS <= HeaderPart(stream) && MarkOnlyInRest(HeaderPart(stream), Longest(stream)))
    ensures AllRead(stream, Parse(HeaderPart(stream)))
  {
    hide HeaderEndsAt, MatchAt, Parse, ReadDate, MarkOnlyInRest, Longest, IndexOf, Delivered, HeaderPart, Receive;
    forall recvs | Delivered(stream, recvs) ensures ReadDate(stream, recvs) == Parse(HeaderPart(stream)) {
      LoopSucceedsExactly(stream, recvs);
      RestDoesNotMatter(HeaderPart(stream), CutAt(stream[..Receive(stream, recvs, 0).total], NUL), Longest(stream), h);
    }
  }

  // ----- what the code tells -----

  /** The loop has succeeded, and the text in the buffer starts like a response and has the good status. */
  predicate Accepted(stream: string, recvs: seq<int>) {
    var g := Receive(stream, recvs, 0);
    var s := CutAt(stream[..g.total], NUL);
    g.ok && STATUS <= s && IndexOf(s, OK).Some?
  }

  /**
    * The promise that RL_SUCCESS comes with a date strptime has read fails for every stream and every way of cutting it
    * that is not accepted, and only for these: the failures before the status check return the code of success.
    */
  lemma SuccessIsTrueExactly(stream: string, recvs: seq<int>, readable: string -> bool)
    ensures var o := ReadDate(stream, recvs);
            && ((Code(o, readable) == RL_SUCCESS ==> o.Date? && readable(o.text)) <==> Accepted(stream, recvs))
            && (!Accepted(stream, recvs) <==> o == ReceiveFailed || o == NotOk)
            && (!Accepted(stream, recvs) ==> Code(o, readable) == RL_SUCCESS)
            && ((Accepted(stream, recvs) && Code(o, readable) == RL_FAILED)
                <==> o == NoDate || o == Malformed || (o.Date? && !readable(o.text)))
  {
    hide Receive, IndexOf, CutAt;
  }

  /** So a transfer that stops too early is reported like a good one, whatever the stream and strptime's answer. */
  lemma CodeHidesBrokenTransfer(stream: string, recvs: seq<int>, readable: string -> bool)
    requires !Delivered(stream, recvs)
    ensures Code(ReadDate(stream, recvs), readable) == RL_SUCCESS && !ReadDate(stream, recvs).Date?
  {
    hide Delivered;
    LoopSucceedsExactly(stream, recvs);
  }

  /** Where the header section is delivered and has all three marks, the code is the answer of strptime to its date. */
  lemma CodeOfDeliveredDate(stream: string, recvs: seq<int>, h: nat, readable: string -> bool)
    requires HeaderEndsAt(stream, h) && HeaderHasDate(stream[..h+4]) && Delivers(recvs, h + 4)
    ensures Parse(stream[..h+4]).Date?
    ensures Code(ReadDate(stream, recvs), readable) == RL_SUCCESS <==> readable(Parse(stream[..h+4]).text)
  {
    SameDateForEverySegmentation(stream, recvs, h);
    hide ReadDate, Parse, Delivers, HeaderHasDate, HeaderEndsAt;
  }

  // ----- the parts, in the characters of the protocol -----

  /** The text starts like a response and has the good status somewhere. */
  ghost predicate Good(s: string) {
    "HTTP/" <= s && exists i: nat :: First(s, "200 OK", i)
  }

  /**
    * What is made of a text: without the good status it is refused; the date is what stands behind the first "Date: "
    * up to the next line end; without the name, or without a line end behind it, there is none.
    */
  lemma ParseExactly(s: string, text: string)
    ensures Parse(s) == NotOk <==> !Good(s)
    ensures Parse(s) == NoDate <==> Good(s) && !exists d: nat :: First(s, "Date: ", d)
    ensures Parse(s) == Malformed
       <==> Good(s) && exists d: nat :: First(s, "Date: ", d) && !exists e: nat :: First(s[d..], "\r\n", e)
    ensures Parse(s) == Date(text)
       <==> Good(s) && exists d: nat, e: nat :: First(s, "Date: ", d) && First(s[d..], "\r\n", e)
                                             && 6 <= e <= |s| - d && text == s[d + 6..d + e]
  {
    FirstIsIndex(s, "200 OK");
    FirstIsIndex(s, "Date: ");
    hide First;
    if Good(s) && IndexOf(s, DATE).Some? {
      var d := IndexOf(s, DATE).value;
      FirstIsIndex(s[d..], "\r\n");
      if IndexOf(s[d..], CRLF).Some? {
        DateEndsBehindName(s, d, IndexOf(s[d..], CRLF).value);
      }
    }
  }

  /** The loop stops at 2047 characters, or when a blank line with no NUL before its end has come. */
  lemma CompleteExactly(stream: string, t: nat)
    requires t <= |stream|
    ensures Complete(stream, t)
       <==> t >= 2047 || exists i: nat :: i + 4 <= t && MatchAt(stream, "\r\n\r\n", i) && '\0' !in stream[..i+4]
  {
    var s := CutAt(stream[..t], NUL);
    if IndexOf(s, BLANK).Some? {
      var i := IndexOf(s, BLANK).value;
      MatchExtends(s, stream, BLANK, i);
      assert s[..i+4] == stream[..i+4];
    }
    if i: nat :| i + 4 <= t && MatchAt(stream, "\r\n\r\n", i) && '\0' !in stream[..i+4] {
      CutExtends(stream, NUL, i + 4, t);
      CutAll(stream[..i+4], NUL);
      assert stream[..i+4] <= s && s[i..i+4] == stream[i..i+4];
      assert MatchAt(s, BLANK, i);
    }
  }

  /**
    * One turn: what the call offers is taken as far as there is room and stream; a call that offers nothing, or none at
    * all, ends the loop in vain.
    */
  lemma TurnExactly(stream: string, recvs: seq<int>, total: nat)
    requires total < 2047 && total <= |stream|
    ensures var most := if |stream| < 2047 then |stream| else 2047;
            && (recvs == [] || recvs[0] <= 0 || total == |stream| ==>
                  Receive(stream, recvs, total) == Got(total, false))
            && (recvs != [] && recvs[0] > 0 && total < |stream| ==>
                  var t := if total + recvs[0] <= most then total + recvs[0] else most;
                  Receive(stream, recvs, total)
                    == if Complete(stream, t) then Got(t, true) else Receive(stream, recvs[1..], t))
  {
    hide IndexOf, CutAt;
  }

  lemma SumOfPrefix(recvs: seq<int>, j: nat)
    requires j < |recvs|
    ensures Sum(recvs[..j+1]) == recvs[0] + Sum(recvs[1..][..j])
  {
    assert recvs[..j+1][1..] == recvs[1..][..j];
  }

  /** The calls up to the k-th offer something and leave the loop incomplete, and the k-th completes it at `t`. */
  ghost predicate CompletesAt(stream: string, recvs: seq<int>, total: nat, k: nat, t: nat) {
    var most := if |stream| < 2047 then |stream| else 2047;
    && k < |recvs| && (forall j :: 0 <= j <= k ==> recvs[j] > 0)
    && (forall j :: 0 < j <= k ==>
          0 <= total + Sum(recvs[..j]) < |stream| && !Complete(stream, total + Sum(recvs[..j])))
    && t == (if total + Sum(recvs[..k+1]) <= most then total + Sum(recvs[..k+1]) else most)
    && Complete(stream, t)
  }

  /** The loop stops at the first call that completes it, with all that has arrived, in so far as there is room. */
  lemma {:induction false} StopsAtFirstComplete(stream: string, recvs: seq<int>, total: nat, k: nat, t: nat)
    requires total < 2047 && total < |stream| && CompletesAt(stream, recvs, total, k, t)
    ensures Receive(stream, recvs, total) == Got(t, true)
    decreases k
  {
    hide CompletesAt, Complete, Receive;
    if k == 0 {
      LastTurn(stream, recvs, total, t);
    } else {
      EarlierTurn(stream, recvs, total, k, t);
      LaterCompletes(stream, recvs, total, k, t);
      StopsAtFirstComplete(stream, recvs[1..], total + recvs[0], k - 1, t);
    }
  }

  lemma LastTurn(stream: string, recvs: seq<int>, total: nat, t: nat)
    requires total < 2047 && total < |stream| && CompletesAt(stream, recvs, total, 0, t)
    ensures Receive(stream, recvs, total) == Got(t, true)
  {
    SumOfOne(recvs);
    assert recvs[..1] == recvs[..0+1];
    hide Sum, Complete, Receive;
    TurnExactly(stream, recvs, total);
  }

  lemma EarlierTurn(stream: string, recvs: seq<int>, total: nat, k: nat, t: nat)
    requires 0 < k && total < 2047 && total < |stream| && CompletesAt(stream, recvs, total, k, t)
    ensures recvs != [] && recvs[0] > 0 && total + recvs[0] < 2047 && total + recvs[0] < |stream|
    ensures Receive(stream, recvs, total) == Receive(stream, recvs[1..], total + recvs[0])
  {
    hide Sum, Complete, Receive;
    FirstLeavesMore(stream, recvs, total, k, t);
    hide CompletesAt;
    NotFull(stream, total + recvs[0]);
    TurnExactly(stream, recvs, total);
  }

  lemma FirstLeavesMore(stream: string, recvs: seq<int>, total: nat, k: nat, t: nat)
    requires 0 < k && total < |stream| && CompletesAt(stream, recvs, total, k, t)
    ensures recvs != [] && recvs[0] > 0 && total + recvs[0] < |stream| && !Complete(stream, total + recvs[0])
  {
    hide Complete;
    assert !Complete(stream, total + Sum(recvs[..1]));
    SumOfOne(recvs);
  }

  lemma SumOfOne(recvs: seq<int>)
    requires recvs != []
    ensures Sum(recvs[..1]) == recvs[0]
  {
    assert recvs[..1] == [recvs[0]];
  }

  lemma LaterCompletes(stream: string, recvs: seq<int>, total: nat, k: nat, t: nat)
    requires k > 0 && CompletesAt(stream, recvs, total, k, t)
    ensures CompletesAt(stream, recvs[1..], total + recvs[0], k - 1, t)
  {
    hide Complete;
    SumOfPrefix(recvs, k);
    forall j | 0 < j <= k - 1
      ensures 0 <= total + recvs[0] + Sum(recvs[1..][..j]) < |stream|
      ensures !Complete(stream, total + recvs[0] + Sum(recvs[1..][..j]))
    {
      SumOfPrefix(recvs, j);
    }
  }

  lemma NotFull(stream: string, t: nat)
    requires t <= |stream| && !Complete(stream, t)
    ensures t < 2047
  {
  }

  /** The codes in figures. */
  lemma CodesExactly(o: Outcome, readable: string -> bool)
    ensures Code(o, readable)
         == if o == NoDate || o == Malformed || (o.Date? && !readable(o.text)) then -1 else 0
  {
  }

  // ----- concrete responses -----

  lemma SampleHead(head: string)
    requires head == "HTTP/1.1 200 OK\r\n\r\n"
    ensures forall j :: 0 <= j < 19 ==> head[j] != NUL && head[j] != 'D' && (head[j] == '\r' ==> j >= 15)
    ensures MatchAt(head, BLANK, 15) && MatchAt(head, OK, 9) && STATUS <= head
  {
    assert head[15..19] == BLANK && head[9..15] == OK && head[..5] == STATUS;
  }

  lemma SampleHeaderEnds(head: string, stream: string)
    requires |head| == 19 <= |stream| && stream[..19] == head && MatchAt(head, BLANK, 15)
    requires forall j :: 0 <= j < 19 ==> head[j] != NUL && (head[j] == '\r' ==> j >= 15)
    ensures HeaderEndsAt(stream, 15)
  {
    MatchExtends(head, stream, BLANK, 15);
    assert forall j :: 0 <= j < 19 ==> stream[j] == head[j];
    forall j | 0 <= j < 15 ensures !MatchAt(stream, BLANK, j) {
      if MatchAt(stream, BLANK, j) {
        MatchChar(stream, BLANK, j, 0);
      }
    }
    IndexIs(stream, BLANK, 15);
  }

  lemma SampleParses(head: string, stream: string)
    requires |head| == 19 && stream == head + DATE + "x" + CRLF + "" && MatchAt(head, OK, 9) && STATUS <= head
    requires forall j :: 0 <= j < 19 ==> head[j] != 'D'
    ensures Parse(head) == NoDate && Parse(stream) == Date("x")
  {
    assert IndexOf(head, OK).Some?;
    IndexExtends(head, stream, OK);
    forall j ensures !MatchAt(head, DATE, j) {
      if MatchAt(head, DATE, j) {
        MatchChar(head, DATE, j, 0);
      }
    }
    assert forall j :: 0 <= j < 19 ==> stream[j] == head[j];
    forall j | 0 <= j < 19 ensures !MatchAt(stream, DATE, j) {
      if MatchAt(stream, DATE, j) {
        MatchChar(stream, DATE, j, 0);
      }
    }
    DateFieldIsReadBack(head, "x", "");
  }

  lemma SampleText(head: string, stream: string)
    requires head == "HTTP/1.1 200 OK\r\n\r\n" && stream == "HTTP/1.1 200 OK\r\n\r\nDate: x\r\n"
    ensures |head| == 19 && |stream| == 28 && stream == head + DATE + "x" + CRLF + ""
    ensures stream[..19] == head && stream[..28] == stream && NUL !in stream && NUL !in head
  {
    assert stream[19..] == DATE + "x" + CRLF + "";
  }

  /** A response whose date is in its body: with the header section alone there is none, in one piece there is. */
  lemma BodyDecides()
    ensures var stream := "HTTP/1.1 200 OK\r\n\r\nDate: x\r\n";
            && HeaderEndsAt(stream, 15) && Delivers([19], 19) && Delivers([28], 19)
            && ReadDate(stream, [19]) == NoDate && ReadDate(stream, [28]) == Date("x")
  {
    var head, stream := "HTTP/1.1 200 OK\r\n\r\n", "HTTP/1.1 200 OK\r\n\r\nDate: x\r\n";
    SampleText(head, stream);
    SampleHead(head);
    hide *;
    SampleHeaderEnds(head, stream);
    SampleParses(head, stream);
    SampleCalls(head, stream);
  }

  lemma SampleCalls(head: string, stream: string)
    requires HeaderEndsAt(stream, 15) && |stream| == 28 && stream[..19] == head && stream[..28] == stream
    requires NUL !in stream && NUL !in head
    ensures Delivers([19], 19) && ReadDate(stream, [19]) == Parse(head)
    ensures Delivers([28], 19) && ReadDate(stream, [28]) == Parse(stream)
  {
    assert Min(CAP - 1, |stream|) == 28;
    hide HeaderEndsAt, ReadDate, Parse, Delivers, Min;
    OneCall(stream, 15, 19);
    OneCall(stream, 15, 28);
    CutAll(head, NUL);
    CutAll(stream, NUL);
  }

  lemma NotFoundText(stream: string)
    requires stream == "HTTP/1.1 404\r\n\r\n"
    ensures |stream| == 16 && NUL !in stream && '2' !in stream && stream[12..16] == BLANK && stream[..16] == stream
    ensures forall j :: 0 <= j < 12 ==> stream[j] != '\r'
  {
    assert stream[12] == stream[14] == '\r' && stream[13] == stream[15] == '\n';
  }

  /** Two failures with the code of success: a transfer cut short, and a response whose status is not 200. */
  lemma HiddenFailures(readable: string -> bool)
    ensures var good, bad := "HTTP/1.1 200 OK\r\n\r\nDate: x\r\n", "HTTP/1.1 404\r\n\r\n";
            && ReadDate(good, [5]) == ReceiveFailed && Code(ReceiveFailed, readable) == RL_SUCCESS
            && ReadDate(bad, [16]) == NotOk && Code(NotOk, readable) == RL_SUCCESS
  {
    var good, bad := "HTTP/1.1 200 OK\r\n\r\nDate: x\r\n", "HTTP/1.1 404\r\n\r\n";
    BodyDecides();
    assert !Delivers([5], 19);
    NotFoundText(bad);
    hide *;
    CutShort(good);
    NotFoundRead(bad);
    CodesOfHidden(readable);
  }

  lemma CodesOfHidden(readable: string -> bool)
    ensures Code(ReceiveFailed, readable) == RL_SUCCESS && Code(NotOk, readable) == RL_SUCCESS
  {
  }

  lemma CutShort(stream: string)
    requires HeaderEndsAt(stream, 15) && !Delivers([5], 19)
    ensures ReadDate(stream, [5]) == ReceiveFailed
  {
    hide HeaderEndsAt, Delivers, Receive;
    LoopGetsHeader(stream, [5], 15, 0);
  }

  lemma NotFoundRead(stream: string)
    requires |stream| == 16 && NUL !in stream && '2' !in stream && stream[12..16] == BLANK && stream[..16] == stream
    requires forall j :: 0 <= j < 12 ==> stream[j] != '\r'
    ensures ReadDate(stream, [16]) == NotOk
  {
    forall j | 0 <= j < 12 ensures !MatchAt(stream, BLANK, j) {
      if MatchAt(stream, BLANK, j) {
        MatchChar(stream, BLANK, j, 0);
      }
    }
    assert MatchAt(stream, BLANK, 12);
    IndexIs(stream, BLANK, 12);
    assert HeaderEndsAt(stream, 12);
    NoTwoHundred(stream);
    hide MatchAt, IndexOf, HeaderEndsAt, ReadDate, Parse;
    OneCall(stream, 12, 16);
    CutAll(stream, NUL);
  }

  lemma NoTwoHundred(s: string)
    requires '2' !in s
    ensures Parse(s) == NotOk
  {
    if IndexOf(s, OK).Some? {
      MatchChar(s, OK, IndexOf(s, OK).value, 0);
    }
  }

  /** A date that arrives and that strptime does not read is a failure, and is reported as one. */
  lemma UnreadableDateFails(readable: string -> bool)
    requires !readable("x")
    ensures var stream := "HTTP/1.1 200 OK\r\n\r\nDate: x\r\n";
            ReadDate(stream, [28]) == Date("x") && Code(ReadDate(stream, [28]), readable) == RL_FAILED
  {
    BodyDecides();
  }
}
