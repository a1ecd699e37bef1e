/** What each edit does to a buffer, told by the characters in it. */
module StrEditTheorems {
  import opened CText
  import opened CTypes
  import opened StrEdit

  /** The buffer now holds exactly `t`, and behind its terminator nothing has changed. */
  ghost predicate NowHolds(was: seq<char>, now: seq<char>, t: string) {
    && |t| < |was| == |now| && now[..|t|] == t && now[|t|] == '\0' && now[|t|+1..] == was[|t|+1..]
  }

  /** A call returns 0 or -1, and then nothing has changed. */
  ghost predicate Reports(was: seq<char>, now: seq<char>, code: int32) {
    code == 0 || (code == -1 && now == was)
  }

  lemma HeldNow(was: seq<char>, now: seq<char>, code: int32, t: string)
    requires Edited(was, now, code, Some(t))
    ensures code == 0 && NowHolds(was, now, t)
  {
    assert now[..|t|] == t;
  }

  /** Removal: the first occurrence of a nonempty target goes. */
  lemma RemoveEdits(was: seq<char>, now: seq<char>, code: int32, target: string)
    requires Edited(was, now, code, Remove(Text(was), target))
    ensures var s := Text(was);
            && Reports(was, now, code)
            && (code == 0 <==> s != "" && target != "" && exists i: nat :: First(s, target, i))
            && (code == 0 ==> exists i: nat :: First(s, target, i) && NowHolds(was, now, s[..i] + s[i+|target|..]))
  {
    var s := Text(was);
    FirstIsIndex(s, target);
    var r := Remove(s, target);
    hide IndexOf, First, Text, CutAt;
    if r.Some? {
      var i := IndexOf(s, target).value;
      assert r.value == s[..i] + s[i+|target|..];
      hide Remove;
      HeldNow(was, now, code, r.value);
    }
  }

  /** Replacement: the first occurrence of a nonempty target becomes the nonempty replacement, if the result fits. */
  lemma ReplaceEdits(was: seq<char>, now: seq<char>, code: int32, target: string, r: string, len: nat)
    requires Edited(was, now, code, Replace(Text(was), target, r, len))
    ensures var s := Text(was);
            && Reports(was, now, code)
            && (code == 0 <==> && s != "" && target != "" && r != "" && |s| - |target| + |r| < len
                               && exists i: nat :: First(s, target, i))
            && (code == 0 ==> exists i: nat :: First(s, target, i) && NowHolds(was, now, s[..i] + r + s[i+|target|..]))
  {
    var s := Text(was);
    FirstIsIndex(s, target);
    hide IndexOf, First, Text, CutAt;
    var t := Replace(s, target, r, len);
    if t.Some? {
      HeldNow(was, now, code, t.value);
    }
  }

  /** Replacement by a character, which for NUL is removal, under the same test of the declared capacity. */
  lemma ReplaceCharEdits(was: seq<char>, now: seq<char>, code: int32, target: string, c: char, len: nat)
    requires Edited(was, now, code, ReplaceByChar(Text(was), target, c, len))
    ensures var s := Text(was);
            && Reports(was, now, code)
            && (code == 0 <==> && s != "" && target != "" && |s| - |target| + 1 < len
                               && exists i: nat :: First(s, target, i))
            && (code == 0 ==> exists i: nat ::
                  && First(s, target, i)
                  && NowHolds(was, now, s[..i] + (if c == '\0' then "" else [c]) + s[i+|target|..]))
  {
    var s := Text(was);
    FirstIsIndex(s, target);
    hide IndexOf, First, Text, CutAt;
    var t := ReplaceByChar(s, target, c, len);
    if t.Some? {
      HeldNow(was, now, code, t.value);
    }
  }

  /** Insertion, within the declared capacity, at a position up to the end. */
  lemma InsertEdits(was: seq<char>, now: seq<char>, code: int32, pos: nat, c: char, max: nat)
    requires Edited(was, now, code, Insert(Text(was), pos, c, max))
    ensures var s := Text(was);
            && Reports(was, now, code)
            && (code == 0 <==> pos <= |s| && |s| + 1 < max)
            && (code == 0 ==> NowHolds(was, now, s[..pos] + [c] + s[pos..]))
  {
    var t := Insert(Text(was), pos, c, max);
    if t.Some? {
      HeldNow(was, now, code, t.value);
    }
  }

  /** Deletion of a character of the text; beyond its end there is none. */
  lemma DeleteEdits(was: seq<char>, now: seq<char>, code: int32, pos: nat)
    requires Edited(was, now, code, Delete(Text(was), pos))
    ensures var s := Text(was);
            && Reports(was, now, code)
            && (code == 0 <==> pos < |s|)
            && (code == 0 ==> NowHolds(was, now, s[..pos] + s[pos+1..]))
  {
    var t := Delete(Text(was), pos);
    if t.Some? {
      HeldNow(was, now, code, t.value);
    }
  }

  /** Cutting a line: the text ends at its first newline, if it has one. */
  lemma RmLineEdits(was: seq<char>, now: seq<char>, code: int32)
    requires Edited(was, now, code, if Text(was) == "" then None else Some(CutAt(Text(was), '\n')))
    ensures var s := Text(was);
            && Reports(was, now, code)
            && (code == 0 <==> s != "")
            && (code == 0 ==> exists n: nat :: n <= |s| && '\n' !in s[..n] && (n == |s| || s[n] == '\n')
                                            && NowHolds(was, now, s[..n]))
  {
    var s := Text(was);
    if s != "" {
      var line := CutAt(s, '\n');
      HeldNow(was, now, code, line);
      assert line == s[..|line|];
    }
  }
}
