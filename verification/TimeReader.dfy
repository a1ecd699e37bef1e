/** Reading the Date field of an HTTP response that arrives in arbitrary pieces. */
module TimeReader {
  import opened CText
  import opened CTypes
  import opened StrEdit

  /** The size of the response buffer. */
  const CAP: nat := 2048

  const STATUS: string := "HTTP/"
  const OK: string := "200 OK"
  const DATE: string := "Date: "
  const CRLF: string := "\r\n"
  const BLANK: string := "\r\n\r\n"

  datatype Outcome = ReceiveFailed | NotOk | NoDate | Malformed | Date(text: string)

  /**
    * The code the caller sees; `readable` says which date texts strptime accepts. The first two failures return
    * RL_FALSE, which has the value of RL_SUCCESS.
    */
  function Code(o: Outcome, readable: string -> bool): int32 {
    match o
    case ReceiveFailed => RL_FALSE
    case NotOk => RL_FALSE
    case NoDate => RL_FAILED
    case Malformed => RL_FAILED
    case Date(text) => if readable(text) then RL_SUCCESS else RL_FAILED
  }

  function Min(a: nat, b: nat): nat {
    if a < b then a else b
  }

  /**
    * One recv call: `recvs[0]` is what the network has to offer, an error when negative; no more calls succeed once
    * the list is exhausted. recv never delivers more than there is room for or the stream still holds.
    */
  function Received(recvs: seq<int>, room: nat, left: nat): int {
    if recvs == [] then 0 else if recvs[0] <= 0 then recvs[0] else Min(recvs[0], Min(room, left))
  }

  datatype Got = Got(total: nat, ok: bool)

  /** The loop stops when the buffer is full or the blank line behind the header section is in it. */
  predicate Complete(stream: string, t: nat)
    requires t <= |stream|
  {
    t >= CAP - 1 || IndexOf(CutAt(stream[..t], NUL), BLANK).Some?
  }

  /** The receive loop from the moment `total` characters are in the buffer. */
  function Receive(stream: string, recvs: seq<int>, total: nat): (g: Got)
    requires total <= |stream| && total < CAP - 1
    ensures total <= g.total <= |stream| && g.total < CAP
    decreases |recvs|
  {
    var k := Received(recvs, CAP - 1 - total, |stream| - total);
    if k <= 0 then Got(total, false)
    else
      var t := total + k;
      if Complete(stream, t) then Got(t, true)
      else Receive(stream, recvs[1..], t)
  }

  /** The text behind "Date: " and before the end of the line is well defined: the name itself has no CR. */
  lemma DateEndsBehindName(s: string, d: nat, e: nat)
    requires MatchAt(s, DATE, d) && d <= |s| && MatchAt(s[d..], CRLF, e)
    ensures e >= 6
  {
    if e < 6 {
      MatchChar(s[d..], CRLF, e, 0);
      MatchChar(s, DATE, d, e);
    }
  }

  /** Status check and Date extraction on the text of the buffer. */
  function Parse(s: string): Outcome {
    if !(STATUS <= s) || IndexOf(s, OK).None? then NotOk
    else
      var d := IndexOf(s, DATE);
      if d.None? then NoDate
      else
        var e := IndexOf(s[d.value..], CRLF);
        if e.None? then Malformed
        else
          DateEndsBehindName(s, d.value, e.value);
          Date(s[d.value + 6..d.value + e.value])
  }

  function ReadDate(stream: string, recvs: seq<int>): Outcome {
    var g := Receive(stream, recvs, 0);
    if g.ok then Parse(CutAt(stream[..g.total], NUL)) else ReceiveFailed
  }

  // ----- the code, on its buffer -----

  lemma {:induction false} CutZeros(s: string, zeros: string)
    requires zeros != [] && forall i :: 0 <= i < |zeros| ==> zeros[i] == NUL
    ensures CutAt(s + zeros, NUL) == CutAt(s, NUL)
  {
    if s != [] && s[0] != NUL {
      assert (s + zeros)[1..] == s[1..] + zeros;
      CutZeros(s[1..], zeros);
    } else if s == [] {
      assert s + zeros == zeros;
    }
  }

  /** The buffer holds the first `total` characters of the stream and zeros behind them. */
  ghost predicate Filled(response: seq<char>, stream: string, total: nat) {
    && total <= |stream| && total < |response|
    && response[..total] == stream[..total]
    && forall i :: total <= i < |response| ==> response[i] == NUL
  }

  lemma FilledText(response: seq<char>, stream: string, total: nat)
    requires Filled(response, stream, total)
    ensures Terminated(response) && Text(response) == CutAt(stream[..total], NUL)
  {
    assert response[total] == NUL;
    assert response == stream[..total] + response[total..];
    CutZeros(stream[..total], response[total..]);
  }

  lemma ReceivedFits(recvs: seq<int>, room: nat, left: nat)
    ensures Received(recvs, room, left) <= room && Received(recvs, room, left) <= left
    ensures Received(recvs, room, left) > 0 ==> recvs != []
  {
  }

  // The three ways a turn of the loop can go: recv fails, the loop is complete, or it goes on.

  lemma ReceiveFails(stream: string, recvs: seq<int>, total: nat)
    requires total <= |stream| && total < CAP - 1 && Received(recvs, CAP - 1 - total, |stream| - total) <= 0
    ensures Receive(stream, recvs, total) == Got(total, false)
  {
  }

  lemma ReceiveStops(stream: string, recvs: seq<int>, total: nat, t: nat)
    requires total < t <= |stream| && total < CAP - 1
    requires t == total + Received(recvs, CAP - 1 - total, |stream| - total) && Complete(stream, t)
    ensures Receive(stream, recvs, total) == Got(t, true)
  {
  }

  lemma ReceiveGoesOn(stream: string, recvs: seq<int>, total: nat, t: nat)
    requires total < t <= |stream| && total < CAP - 1 && recvs != []
    requires t == total + Received(recvs, CAP - 1 - total, |stream| - total) && !Complete(stream, t)
    ensures t < CAP - 1 && Receive(stream, recvs, total) == Receive(stream, recvs[1..], t)
  {
  }

  /** recv: the next `n` characters of the stream arrive in the buffer behind those received so far. */
  method Recv(response: array<char>, stream: string, ghost was: seq<char>, total: nat, n: nat)
    requires response.Length == CAP && response[..] == was && Filled(was, stream, total)
    requires total + n <= |stream| && total + n < CAP
    modifies response
    ensures Filled(response[..], stream, total + n)
  {
    forall i | 0 <= i < n {
      response[total + i] := stream[total + i];
    }
    assert response[..][..total + n] == stream[..total + n] by {
      assert forall i :: 0 <= i < total ==> response[i] == was[i] == was[..total][i] == stream[i];
    }
  }

  lemma EmptyBufferFilled(response: seq<char>, stream: string)
    requires |response| > 0 && forall i :: 0 <= i < |response| ==> response[i] == NUL
    ensures Filled(response, stream, 0)
  {
  }

  /** Writing a terminator behind what has been received changes nothing: there are zeros already. */
  lemma FilledStays(response: seq<char>, stream: string, total: nat)
    requires Filled(response, stream, total)
    ensures response[total := NUL] == response
  {
  }

  /** The body of the loop, when recv has brought `n` characters: whether to stop. */
  method TakeIn(response: array<char>, stream: string, total: nat, n: nat) returns (done: bool)
    requires response.Length == CAP && Filled(response[..], stream, total)
    requires total + n <= |stream| && total + n < CAP
    modifies response
    ensures Filled(response[..], stream, total + n) && done == Complete(stream, total + n)
  {
    hide Filled, IndexOf, CutAt, Text, Terminated;
    Recv(response, stream, response[..], total, n);
    var t := total + n;
    if t >= CAP - 1 {
      return true;
    }
    FilledStays(response[..], stream, t);
    response[t] := NUL;
    FilledText(response[..], stream, t);
    var end := StrStr(response, BLANK);
    return end.Some?;
  }

  /** The receive loop on an empty buffer; `got.ok` is whether the last recv delivered something. */
  method ReceiveHeader(response: array<char>, stream: string, recvs: seq<int>) returns (got: Got)
    requires response.Length == CAP && Filled(response[..], stream, 0)
    modifies response
    ensures got == Receive(stream, recvs, 0)
    ensures Filled(response[..], stream, got.total)
  {
    var total, rest := 0, recvs;
    hide Receive, Complete, Filled, Received;
    while true
      invariant total < CAP - 1 && total <= |stream|
      invariant Filled(response[..], stream, total)
      invariant Receive(stream, recvs, 0) == Receive(stream, rest, total)
      decreases |rest|
    {
      var ret := Received(rest, CAP - 1 - total, |stream| - total);
      if ret <= 0 {
        ReceiveFails(stream, rest, total);
        return Got(total, false);
      }
      ReceivedFits(rest, CAP - 1 - total, |stream| - total);
      var done := TakeIn(response, stream, total, ret);
      if done {
        ReceiveStops(stream, rest, total, total + ret);
        return Got(total + ret, true);
      }
      ReceiveGoesOn(stream, rest, total, total + ret);
      total, rest := total + ret, rest[1..];
    }
  }

  /** rl_get_time_from_server from the first recv on; what strptime makes of an accepted text is not modelled. */
  method GetDate(stream: string, recvs: seq<int>, readable: string -> bool) returns (code: int32, o: Outcome)
    ensures o == ReadDate(stream, recvs) && code == Code(o, readable)
  {
    var response := new char[CAP](_ => NUL);
    EmptyBufferFilled(response[..], stream);
    var got := ReceiveHeader(response, stream, recvs);
    if !got.ok {
      return RL_FALSE, ReceiveFailed;
    }
    FilledText(response[..], stream, got.total);
    o := ParseBuffer(response);
    code := Code(o, readable);
  }

  method ParseBuffer(response: array<char>) returns (o: Outcome)
    requires Terminated(response[..])
    modifies response
    ensures o == Parse(old(Text(response[..])))
  {
    hide CutAt, IndexOf;
    ghost var s := Text(response[..]);
    var len := StrLen(response);
    var ok := StrStr(response, OK);
    if !(STATUS <= response[..len]) || ok.None? {
      return NotOk;
    }
    var header := StrStr(response, DATE);
    if header.None? {
      return NoDate;
    }
    var end := StrStrFrom(response, header.value, CRLF);
    if end.None? {
      return Malformed;
    }
    DateEndsBehindName(s, header.value, end.value);
    var text := CutDate(response, header.value + 6, header.value + end.value);
    o := Date(text);
  }

  /** Writes a terminator at `to` and takes the text behind `from` as the date. */
  method CutDate(response: array<char>, from: nat, to: nat) returns (text: string)
    requires Terminated(response[..]) && from <= to <= |Text(response[..])|
    modifies response
    ensures text == old(Text(response[..]))[from..to]
  {
    ghost var was, s := response[..], Text(response[..]);
    EndedAt(was, to);
    hide CutAt, Holds, Text;
    response[to] := NUL;
    assert response[..] == was[to := NUL];
    HoldsText(response[..], s[..to], was);
    text := TextFrom(response, from);
    assert s[..to][from..] == s[from..to];
  }
}
