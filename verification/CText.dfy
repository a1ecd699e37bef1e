/** NUL-terminated text: what a character buffer holds, and searching in it. */
module CText {
  import opened CTypes

  const NUL: char := '\0'

  /** Everything before the first occurrence of `c`. */
  function CutAt(s: string, c: char): (r: string)
    ensures r <= s && c !in r
    ensures r == s || s[|r|] == c
  {
    if s == [] || s[0] == c then [] else [s[0]] + CutAt(s[1..], c)
  }

  predicate Terminated(buf: seq<char>) {
    NUL in buf
  }

  /** The string a buffer holds. */
  function Text(buf: seq<char>): string {
    CutAt(buf, NUL)
  }

  lemma {:induction false} CutIs(s: string, c: char, t: string)
    requires t < s && s[|t|] == c && c !in t
    ensures CutAt(s, c) == t
  {
  }

  /** What has no `c` is not cut. */
  lemma CutAll(s: string, c: char)
    requires c !in s
    ensures CutAt(s, c) == s
  {
  }

  lemma TextEnds(buf: seq<char>)
    requires Terminated(buf)
    ensures |Text(buf)| < |buf| && buf[|Text(buf)|] == NUL
  {
  }

  /** The buffer holds `t`, and every character behind the terminator is as it was in `was`. */
  ghost predicate Holds(buf: seq<char>, t: string, was: seq<char>) {
    |t| < |buf| == |was| && buf == t + [NUL] + was[|t|+1..]
  }

  lemma HoldsText(buf: seq<char>, t: string, was: seq<char>)
    requires Holds(buf, t, was) && NUL !in t
    ensures Terminated(buf) && Text(buf) == t
  {
    assert buf[|t|] == NUL;
    assert t == buf[..|t|];
    CutIs(buf, NUL, t);
  }

  // ----- the first occurrence -----

  predicate MatchAt(s: string, t: string, i: int) {
    0 <= i <= i + |t| <= |s| && s[i..i+|t|] == t
  }

  function IndexFrom(s: string, t: string, i: nat): (r: Option<nat>)
    requires i <= |s|
    ensures r.Some? ==> i <= r.value && MatchAt(s, t, r.value) && forall j :: i <= j < r.value ==> !MatchAt(s, t, j)
    ensures r.None? ==> forall j :: i <= j ==> !MatchAt(s, t, j)
    decreases |s| - i
  {
    if MatchAt(s, t, i) then Some(i)
    else if i == |s| then None
    else IndexFrom(s, t, i + 1)
  }

  /** strstr: the least index at which `t` occurs in `s`. */
  function IndexOf(s: string, t: string): (r: Option<nat>)
    ensures r.Some? ==> MatchAt(s, t, r.value) && forall j :: 0 <= j < r.value ==> !MatchAt(s, t, j)
    ensures r.None? ==> forall j :: !MatchAt(s, t, j)
  {
    IndexFrom(s, t, 0)
  }

  lemma IndexIs(s: string, t: string, i: nat)
    requires MatchAt(s, t, i) && forall j :: 0 <= j < i ==> !MatchAt(s, t, j)
    ensures IndexOf(s, t) == Some(i)
  {
  }

  lemma MatchChar(s: string, t: string, i: nat, k: nat)
    requires MatchAt(s, t, i) && k < |t|
    ensures s[i + k] == t[k]
  {
  }

  lemma MatchIsCharwise(s: string, t: string, i: int)
    ensures MatchAt(s, t, i) <==> 0 <= i && i + |t| <= |s| && forall k :: 0 <= k < |t| ==> s[i+k] == t[k]
  {
    if 0 <= i && i + |t| <= |s| && forall k :: 0 <= k < |t| ==> s[i+k] == t[k] {
      assert s[i..i+|t|] == t;
    } else if MatchAt(s, t, i) {
      forall k: nat | k < |t| ensures s[i+k] == t[k] {
        MatchChar(s, t, i, k);
      }
    }
  }

  /** The least index at which `t` occurs in `s` is `i`. */
  predicate First(s: string, t: string, i: nat) {
    MatchAt(s, t, i) && forall j :: 0 <= j < i ==> !MatchAt(s, t, j)
  }

  lemma FirstIsIndex(s: string, t: string)
    ensures IndexOf(s, t).Some? <==> exists i: nat :: First(s, t, i)
    ensures forall i: nat :: First(s, t, i) <==> IndexOf(s, t) == Some(i)
  {
    if IndexOf(s, t).Some? {
      assert First(s, t, IndexOf(s, t).value);
    }
    forall i: nat | First(s, t, i) ensures IndexOf(s, t) == Some(i) {
      IndexIs(s, t, i);
    }
  }

  // ----- the C library calls on buffers -----

  method StrLen(buf: array<char>) returns (n: nat)
    requires Terminated(buf[..])
    ensures n == |Text(buf[..])| && n < buf.Length && buf[n] == NUL && Text(buf[..]) == buf[..n]
  {
    n := 0;
    TextEnds(buf[..]);
    ghost var t := Text(buf[..]);
    assert t == buf[..|t|] && forall k :: 0 <= k < |t| ==> t[k] == buf[k] != NUL;
    while buf[n] != NUL
      invariant n <= |t|
      decreases buf.Length - n
    {
      n := n + 1;
    }
  }

  /** strchr on the text of a buffer, for a character other than NUL: where the text is to be cut. */
  method StrChr(buf: array<char>, c: char) returns (r: Option<nat>)
    requires Terminated(buf[..]) && c != NUL
    ensures r.Some? <==> c in Text(buf[..])
    ensures r.Some? ==> r.value < |Text(buf[..])| && CutAt(Text(buf[..]), c) == Text(buf[..])[..r.value]
  {
    var n := StrLen(buf);
    ghost var s := Text(buf[..]);
    var i := 0;
    while i < n
      invariant i <= n && c !in s[..i]
    {
      if buf[i] == c {
        CutIs(s, c, s[..i]);
        return Some(i);
      }
      i := i + 1;
    }
    return None;
  }

  /** strstr on the text of a buffer behind its first `from` characters. */
  method StrStrFrom(buf: array<char>, from: nat, t: string) returns (r: Option<nat>)
    requires Terminated(buf[..]) && from <= |Text(buf[..])|
    ensures r == IndexOf(Text(buf[..])[from..], t)
  {
    var len := StrLen(buf);
    var n := len - from;
    ghost var s := Text(buf[..])[from..];
    var i := 0;
    while i + |t| <= n
      invariant i <= n + 1
      invariant forall j :: 0 <= j < i ==> !MatchAt(s, t, j)
    {
      var k := 0;
      while k < |t| && buf[from + i + k] == t[k]
        invariant k <= |t| && s[i..i+k] == t[..k]
      {
        assert s[i..i+k+1] == s[i..i+k] + [s[i+k]] && t[..k+1] == t[..k] + [t[k]];
        k := k + 1;
      }
      if k == |t| {
        assert MatchAt(s, t, i);
        IndexIs(s, t, i);
        return Some(i);
      }
      assert !MatchAt(s, t, i) by {
        if MatchAt(s, t, i) {
          MatchChar(s, t, i, k);
        }
      }
      i := i + 1;
    }
    return None;
  }

  /** strstr on the whole text of a buffer. */
  method StrStr(buf: array<char>, t: string) returns (r: Option<nat>)
    requires Terminated(buf[..])
    ensures r == IndexOf(Text(buf[..]), t)
  {
    assert Text(buf[..])[0..] == Text(buf[..]);
    r := StrStrFrom(buf, 0, t);
  }

  /** `b` with the `n` characters at `src` copied over those at `dst`. */
  function Moved(b: seq<char>, dst: nat, src: nat, n: nat): seq<char>
    requires dst + n <= |b| && src + n <= |b|
  {
    b[..dst] + b[src..src+n] + b[dst+n..]
  }

  /** memmove within one buffer: all characters are read before any is written. */
  method MemMove(buf: array<char>, dst: nat, src: nat, n: nat)
    requires dst + n <= buf.Length && src + n <= buf.Length
    modifies buf
    ensures buf[..] == Moved(old(buf[..]), dst, src, n)
  {
    forall i | 0 <= i < n {
      buf[dst + i] := buf[src + i];
    }
  }

  /** strcpy: stores `s` and a terminator at the start of the buffer. */
  method StrCpy(buf: array<char>, s: string)
    requires |s| < buf.Length
    modifies buf
    ensures Holds(buf[..], s, old(buf[..]))
  {
    forall i | 0 <= i < |s| {
      buf[i] := s[i];
    }
    buf[|s|] := NUL;
  }

  /** strcat: stores `s` and a terminator over the terminator of the text there is. */
  method StrCat(buf: array<char>, s: string)
    requires Terminated(buf[..]) && |Text(buf[..])| + |s| < buf.Length
    modifies buf
    ensures Holds(buf[..], old(Text(buf[..])) + s, old(buf[..]))
  {
    var n := StrLen(buf);
    forall i | 0 <= i < |s| {
      buf[n + i] := s[i];
    }
    buf[n + |s|] := NUL;
  }
}
