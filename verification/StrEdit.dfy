/** In-place edits of NUL-terminated buffers. */
module StrEdit {
  import opened CText
  import opened CTypes

  // ----- what each edit means, on strings: the new string, or None where the call fails -----

  /** `s` with the `n` characters from `i` replaced by `r`. */
  function Spliced(s: string, i: nat, n: nat, r: string): string
    requires i + n <= |s|
  {
    s[..i] + r + s[i+n..]
  }

  function Remove(s: string, target: string): Option<string> {
    var i := IndexOf(s, target);
    if s == "" || target == "" || i.None? then None else Some(Spliced(s, i.value, |target|, ""))
  }

  /** `len` is the capacity the caller declares. */
  function Replace(s: string, target: string, r: string, len: nat): Option<string> {
    var i := IndexOf(s, target);
    if s == "" || target == "" || r == "" || i.None? then None
    else if i.value + |r| + (|s| - i.value - |target|) + 1 > len then None
    else Some(Spliced(s, i.value, |target|, r))
  }

  function ReplaceByChar(s: string, target: string, c: char, len: nat): Option<string> {
    var i := IndexOf(s, target);
    if s == "" || target == "" || i.None? then None
    else if i.value + 1 + (|s| - i.value - |target|) + 1 > len then None
    else Some(Spliced(s, i.value, |target|, if c == NUL then "" else [c]))
  }

  /** The characters a buffer holds after an insertion, before its terminator; inserting NUL cuts the string here. */
  function Insert(s: string, pos: nat, c: char, max: nat): Option<string> {
    if max == 0 || |s| >= max - 1 then None
    else if pos > |s| || pos >= max - 1 then None
    else Some(s[..pos] + [c] + s[pos..])
  }

  function Delete(s: string, pos: nat): Option<string> {
    if pos >= |s| then None else Some(s[..pos] + s[pos+1..])
  }

  // ----- the edits on buffers -----

  /** All characters of a buffer; a null pointer has none. */
  ghost function Chars(str: array?<char>): seq<char>
    reads str
  {
    if str == null then [] else str[..]
  }

  predicate Ready(str: array?<char>)
    reads str
  {
    str != null ==> Terminated(str[..])
  }

  /** The outcome of a call: the new string in place and nothing behind it touched, or failure and no change. */
  ghost predicate Edited(was: seq<char>, now: seq<char>, code: int32, r: Option<string>) {
    if r.Some? then code == RL_SUCCESS && Holds(now, r.value, was)
    else code == RL_FAILED && now == was
  }

  /** rl_str_isempty. */
  method IsEmpty(str: array?<char>) returns (r: bool)
    requires Ready(str)
    ensures r <==> Text(Chars(str)) == ""
    ensures !r ==> str != null
  {
    if str == null {
      return true;
    }
    TextEnds(str[..]);
    r := str[0] == NUL;
  }

  /** Moving the tail of the text, terminator included, `m` places down to `i`. */
  lemma TailMovedDown(was: seq<char>, i: nat, m: nat)
    requires Terminated(was) && i + m <= |Text(was)|
    ensures |Text(was)| < |was|
    ensures Holds(Moved(was, i, i + m, |Text(was)| - i - m + 1), Spliced(Text(was), i, m, ""), was)
  {
  }

  /** Moves everything behind the `m` characters at `i` down over them. */
  method CloseGap(str: array<char>, i: nat, m: nat)
    requires Terminated(str[..]) && i + m <= |Text(str[..])|
    modifies str
    ensures Holds(str[..], Spliced(old(Text(str[..])), i, m, ""), old(str[..]))
  {
    hide CutAt, Holds, Moved, Text, Spliced;
    var n := StrLen(str);
    ghost var was := str[..];
    TailMovedDown(was, i, m);
    MemMove(str, i, i + m, n - i - m + 1);
  }

  method RemoveSubstr(str: array?<char>, target: string) returns (code: int32)
    requires Ready(str)
    modifies if str == null then {} else {str}
    ensures Edited(old(Chars(str)), Chars(str), code, Remove(old(Text(Chars(str))), target))
    ensures old(Text(Chars(str))) == "" || target == "" ==> code == -1 && Chars(str) == old(Chars(str))
  {
    var empty := IsEmpty(str);
    if empty || target == "" {
      return RL_FAILED;
    }
    var pos := StrStr(str, target);
    if pos.None? {
      return RL_FAILED;
    }
    hide IndexOf, CutAt, Holds;
    CloseGap(str, pos.value, |target|);
    return RL_SUCCESS;
  }

  /** The part of the text behind the first `k` characters, as a pointer into the buffer denotes it. */
  method TextFrom(str: array<char>, k: nat) returns (t: string)
    requires Terminated(str[..]) && k <= |Text(str[..])|
    ensures t == Text(str[..])[k..] && NUL !in t
  {
    var n := StrLen(str);
    t := str[k..n];
  }

  /** The scratch buffer of the replacing calls: `text` cut off at `prefix`, then `middle`, then `rest`. */
  method Compose(text: string, prefix: nat, middle: string, rest: string, len: nat) returns (edited: string)
    requires NUL !in text && NUL !in middle && NUL !in rest
    requires prefix <= |text| < len && prefix + |middle| + |rest| < len
    ensures edited == text[..prefix] + middle + rest
  {
    hide CutAt;
    var buffer := new char[len];
    StrCpy(buffer, text);
    buffer[prefix] := NUL;
    CutIs(buffer[..], NUL, text[..prefix]);
    ghost var was := buffer[..];
    StrCat(buffer, middle);
    HoldsText(buffer[..], text[..prefix] + middle, was);
    was := buffer[..];
    StrCat(buffer, rest);
    HoldsText(buffer[..], text[..prefix] + middle + rest, was);
    edited := TextFrom(buffer, 0);
  }

  /** The second half of rl_replace_substr: the capacity test, and the detour through the scratch buffer. */
  method ReplaceAt(str: array<char>, prefix: nat, m: nat, replace: string, len: nat) returns (code: int32)
    requires Terminated(str[..]) && NUL !in replace && prefix + m <= |Text(str[..])|
    requires var total := prefix + |replace| + (|Text(str[..])| - prefix - m) + 1;
             total <= len ==> |Text(str[..])| < len && total <= str.Length
    modifies str
    ensures var s := old(Text(str[..]));
            if prefix + |replace| + (|s| - prefix - m) + 1 > len then code == RL_FAILED && str[..] == old(str[..])
            else code == RL_SUCCESS && Holds(str[..], Spliced(s, prefix, m, replace), old(str[..]))
  {
    hide CutAt, Text, Holds;
    var rest := TextFrom(str, prefix + m);
    if prefix + |replace| + |rest| + 1 > len {
      return RL_FAILED;
    }
    var text := TextFrom(str, 0);
    var edited := Compose(text, prefix, replace, rest, len);
    assert edited == Spliced(text, prefix, m, replace);
    hide Spliced;
    StrCpy(str, edited);
    return RL_SUCCESS;
  }

  /** Where the edit goes ahead, the whole text must fit the scratch buffer and the result must fit the caller's. */
  method ReplaceSubstr(str: array?<char>, target: string, replace: string, len: nat) returns (code: int32)
    requires Ready(str) && NUL !in replace
    requires var s := Text(Chars(str)); var r := Replace(s, target, replace, len);
             r.Some? ==> |s| < len && |r.value| < |Chars(str)|
    modifies if str == null then {} else {str}
    ensures Edited(old(Chars(str)), Chars(str), code, Replace(old(Text(Chars(str))), target, replace, len))
    ensures old(Text(Chars(str))) == "" || target == "" || replace == ""
            ==> code == -1 && Chars(str) == old(Chars(str))
  {
    var empty := IsEmpty(str);
    if empty || target == "" || replace == "" {
      return RL_FAILED;
    }
    var pos := StrStr(str, target);
    if pos.None? {
      return RL_FAILED;
    }
    hide IndexOf, CutAt, Holds, Spliced, Text;
    code := ReplaceAt(str, pos.value, |target|, replace, len);
  }

  /** The second half of rl_replace_char. */
  method ReplaceCharAt(str: array<char>, prefix: nat, m: nat, c: char, len: nat) returns (code: int32)
    requires Terminated(str[..]) && m > 0 && prefix + m <= |Text(str[..])|
    modifies str
    ensures var s := old(Text(str[..]));
            if prefix + 1 + (|s| - prefix - m) + 1 > len then code == RL_FAILED && str[..] == old(str[..])
            else code == RL_SUCCESS && Holds(str[..], Spliced(s, prefix, m, if c == NUL then "" else [c]), old(str[..]))
  {
    TextEnds(str[..]);
    hide CutAt, Text, Holds;
    var rest := TextFrom(str, prefix + m);
    if prefix + 1 + |rest| + 1 > len {
      return RL_FAILED;
    }
    var text := TextFrom(str, 0);
    var edited := ComposeChar(text, prefix, c, rest, len);
    assert edited == Spliced(text, prefix, m, if c == NUL then "" else [c]) && |edited| <= |text|;
    hide Spliced;
    StrCpy(str, edited);
    return RL_SUCCESS;
  }

  /** The result is never longer than the text, so any declared capacity will do. */
  method ReplaceChar(str: array?<char>, target: string, replace: char, len: nat) returns (code: int32)
    requires Ready(str)
    modifies if str == null then {} else {str}
    ensures Edited(old(Chars(str)), Chars(str), code, ReplaceByChar(old(Text(Chars(str))), target, replace, len))
    ensures old(Text(Chars(str))) == "" || target == "" ==> code == -1 && Chars(str) == old(Chars(str))
  {
    var empty := IsEmpty(str);
    if empty || target == "" {
      return RL_FAILED;
    }
    var pos := StrStr(str, target);
    if pos.None? {
      return RL_FAILED;
    }
    hide IndexOf, CutAt, Holds, Spliced, Text;
    code := ReplaceCharAt(str, pos.value, |target|, replace, len);
  }

  /** strncpy of the prefix, which leaves no terminator, then the character and a terminator, then strcat. */
  method ComposeChar(text: string, prefix: nat, c: char, rest: string, len: nat) returns (edited: string)
    requires NUL !in text && NUL !in rest && prefix <= |text| && prefix + 1 + |rest| < len
    ensures edited == text[..prefix] + (if c == NUL then "" else [c]) + rest
  {
    hide CutAt;
    var buffer := new char[len];
    forall i | 0 <= i < prefix {
      buffer[i] := text[i];
    }
    buffer[prefix] := c;
    buffer[prefix + 1] := NUL;
    ghost var head := text[..prefix] + (if c == NUL then "" else [c]);
    assert buffer[..|head|] == head;
    CutIs(buffer[..], NUL, head);
    ghost var was := buffer[..];
    StrCat(buffer, rest);
    HoldsText(buffer[..], head + rest, was);
    edited := TextFrom(buffer, 0);
  }

  /** Where the insertion goes ahead, one more character must fit the buffer, whatever capacity is declared. */
  method InsertCh(str: array?<char>, pos: nat, c: char, max: nat) returns (code: int32)
    requires Ready(str)
    requires str != null && Insert(Text(str[..]), pos, c, max).Some? ==> |Text(str[..])| + 1 < str.Length
    modifies if str == null then {} else {str}
    ensures Edited(old(Chars(str)), Chars(str), code,
                   if str == null then None else Insert(old(Text(Chars(str))), pos, c, max))
  {
    if str == null || max == 0 {
      return RL_FAILED;
    }
    var len := StrLen(str);
    if len >= max - 1 {
      return RL_FAILED;
    }
    if pos > len || pos >= max - 1 {
      return RL_FAILED;
    }
    TailMovedUp(str[..], pos, c);
    hide CutAt, Holds, Moved;
    ghost var was := str[..];
    MemMove(str, pos + 1, pos, len - pos + 1);
    str[pos] := c;
    assert str[..] == Moved(was, pos + 1, pos, len - pos + 1)[pos := c];
    return RL_SUCCESS;
  }

  lemma TailMovedUp(was: seq<char>, pos: nat, c: char)
    requires Terminated(was) && pos <= |Text(was)| && |Text(was)| + 1 < |was|
    ensures Holds(Moved(was, pos + 1, pos, |Text(was)| - pos + 1)[pos := c],
                  Text(was)[..pos] + [c] + Text(was)[pos..], was)
  {
  }

  method DeleteChar(str: array<char>, pos: nat) returns (code: int32)
    requires Terminated(str[..])
    modifies str
    ensures Edited(old(str[..]), str[..], code, Delete(old(Text(str[..])), pos))
    ensures pos >= |old(Text(str[..]))| ==> code == -1 && str[..] == old(str[..])
  {
    var len := StrLen(str);
    if pos >= len {
      return RL_FAILED;
    }
    hide CutAt, Holds;
    CloseGap(str, pos, 1);
    ghost var s := old(Text(str[..]));
    assert Spliced(s, pos, 1, "") == s[..pos] + s[pos+1..];
    return RL_SUCCESS;
  }

  /** rl_str_rm_line: ends the string at its first newline. */
  method RmLine(str: array?<char>) returns (code: int32)
    requires Ready(str)
    modifies if str == null then {} else {str}
    ensures var s := old(Text(Chars(str)));
            Edited(old(Chars(str)), Chars(str), code, if s == "" then None else Some(CutAt(s, '\n')))
    ensures code == if old(Text(Chars(str))) == "" then -1 else 0
  {
    var empty := IsEmpty(str);
    if empty {
      return RL_FAILED;
    }
    var line := StrChr(str, '\n');
    ghost var was := str[..];
    if line.Some? {
      EndedAt(was, line.value);
      hide CutAt, Holds;
      str[line.value] := NUL;
      assert str[..] == was[line.value := NUL];
    } else {
      CutAll(Text(was), '\n');
      EndedAt(was, |Text(was)|);
    }
    return RL_SUCCESS;
  }

  /** Writing a terminator at or before the end of the text cuts the text there. */
  lemma EndedAt(was: seq<char>, i: nat)
    requires Terminated(was) && i <= |Text(was)|
    ensures |Text(was)| < |was| && was[|Text(was)| := NUL] == was
    ensures Holds(was[i := NUL], Text(was)[..i], was)
    ensures Text(was)[..|Text(was)|] == Text(was)
  {
  }

  // ----- what the edits promise -----

  /** A successful edit leaves a terminated buffer whose text is the new string. */
  lemma EditedText(was: seq<char>, now: seq<char>, code: int32, t: string)
    requires Edited(was, now, code, Some(t)) && NUL !in t
    ensures Terminated(now) && Text(now) == t
  {
    HoldsText(now, t, was);
  }

  /** Inserting NUL cuts the string at the position instead. */
  lemma InsertedNulCuts(was: seq<char>, now: seq<char>, code: int32, pos: nat, max: nat)
    requires Terminated(was) && Insert(Text(was), pos, NUL, max).Some?
    requires Edited(was, now, code, Insert(Text(was), pos, NUL, max))
    ensures Terminated(now) && Text(now) == Text(was)[..pos]
  {
    assert now[pos] == NUL && now[..pos] == Text(was)[..pos];
    CutIs(now, NUL, Text(was)[..pos]);
  }

  /**
    * Replacing by one character is replacing by a one-character string, and for NUL it is removal. Where the target
    * occurs the call fails exactly when the declared capacity is below the room for one character in its place, which
    * no capacity that holds the text itself is.
    */
  lemma OneCharReplacementAgrees(s: string, target: string, c: char, len: nat)
    ensures c != NUL ==> ReplaceByChar(s, target, c, len) == Replace(s, target, [c], len)
    ensures c == NUL && ReplaceByChar(s, target, c, len).Some? ==> ReplaceByChar(s, target, c, len) == Remove(s, target)
    ensures ReplaceByChar(s, target, c, len).Some?
        <==> s != "" && target != "" && IndexOf(s, target).Some? && |s| - |target| + 2 <= len
    ensures |s| < len && target != "" ==> |s| - |target| + 2 <= len
  {
  }

  /** A replacement changes exactly the least occurrence of the target, and succeeds if and only if the result fits. */
  lemma ReplacesLeastMatch(s: string, target: string, r: string, len: nat)
    ensures Replace(s, target, r, len).Some?
        <==> && s != "" && target != "" && r != ""
             && exists i :: MatchAt(s, target, i) && (forall j :: 0 <= j < i ==> !MatchAt(s, target, j))
                      && |s| - |target| + |r| < len
    ensures Replace(s, target, r, len).Some? ==>
              var t := Replace(s, target, r, len).value;
              && |t| == |s| - |target| + |r| < len
              && exists i :: MatchAt(s, target, i) && MatchAt(t, r, i)
                          && (forall j :: 0 <= j < i ==> !MatchAt(s, target, j))
                          && t[..i] == s[..i] && t[i+|r|..] == s[i+|target|..]
  {
  }

  /** Insertion succeeds exactly when the position is in the string and one more character fits. */
  lemma InsertSucceeds(s: string, pos: nat, c: char, max: nat)
    ensures Insert(s, pos, c, max).Some? <==> pos <= |s| && |s| + 1 < max
  {
  }

  lemma InsertThenDelete(s: string, pos: nat, c: char, max: nat)
    requires Insert(s, pos, c, max).Some?
    ensures Delete(Insert(s, pos, c, max).value, pos) == Some(s)
  {
    var t := Insert(s, pos, c, max).value;
    assert t[..pos] + t[pos+1..] == s[..pos] + s[pos..] == s;
  }

  lemma DeleteThenInsert(s: string, pos: nat, max: nat)
    requires pos < |s| < max
    ensures Delete(s, pos).Some? && Insert(Delete(s, pos).value, pos, s[pos], max) == Some(s)
  {
    var t := Delete(s, pos).value;
    assert t[..pos] == s[..pos] && t[pos..] == s[pos+1..];
    assert s[..pos] + [s[pos]] + s[pos+1..] == s;
  }

  /**
    * Deleting what has been inserted restores the string, unless it is NUL: that has cut the string at the position,
    * where there is then nothing to delete.
    */
  lemma InsertDelete(was: seq<char>, mid: seq<char>, now: seq<char>, code: int32, pos: nat, c: char, max: nat)
    requires Terminated(was) && Insert(Text(was), pos, c, max).Some?
    requires Edited(was, mid, RL_SUCCESS, Insert(Text(was), pos, c, max))
    requires Edited(mid, now, code, Delete(Text(mid), pos))
    ensures code == RL_SUCCESS && Terminated(now) && Text(now) == Text(was) <==> c != NUL
  {
    var s, t := Text(was), Insert(Text(was), pos, c, max).value;
    if c == NUL {
      InsertedNulCuts(was, mid, RL_SUCCESS, pos, max);
    } else {
      assert NUL !in t;
      InsertThenDelete(s, pos, c, max);
      hide Edited, Text, Insert, Delete, Terminated;
      EditedText(was, mid, RL_SUCCESS, t);
      assert NUL !in s by { TextHasNoNul(was); }
      EditedText(mid, now, code, s);
      CodeOfSuccess(mid, now, code, s);
    }
  }

  lemma TextHasNoNul(buf: seq<char>)
    ensures NUL !in Text(buf)
  {
  }

  lemma CodeOfSuccess(was: seq<char>, now: seq<char>, code: int32, t: string)
    requires Edited(was, now, code, Some(t))
    ensures code == RL_SUCCESS
  {
  }

  /** Inserting what has been deleted restores the string, whenever the capacity allows a string of that length. */
  lemma DeleteInsert(was: seq<char>, mid: seq<char>, now: seq<char>, code: int32, pos: nat, max: nat)
    requires Terminated(was) && pos < |Text(was)|
    requires Edited(was, mid, RL_SUCCESS, Delete(Text(was), pos))
    requires Edited(mid, now, code, Insert(Text(mid), pos, Text(was)[pos], max))
    ensures code == RL_SUCCESS && Terminated(now) && Text(now) == Text(was) <==> |Text(was)| < max
  {
    var s, t := Text(was), Delete(Text(was), pos).value;
    TextHasNoNul(was);
    assert NUL !in t;
    EditedText(was, mid, RL_SUCCESS, t);
    assert |t| == |s| - 1;
    if |s| < max {
      DeleteThenInsert(s, pos, max);
      hide Edited, Text, Insert, Delete, Terminated;
      EditedText(mid, now, code, s);
      CodeOfSuccess(mid, now, code, s);
    } else {
      InsertSucceeds(t, pos, s[pos], max);
    }
  }
}
