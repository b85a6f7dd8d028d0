/** simple_match of librxvm/rxvm.c: expressions of literals only are never compiled, they are
    compared with the input directly. Matching is exact. Searching never goes back in the
    input; LiteralSearch.dfy says for which patterns that is exact. */
module SimpleMatch {
  import opened Regex

  /** The literals an expression of literals stands for. */
  function Unescape(s: string): string {
    if s == "" then ""
    else if s[0] != '\\' then [s[0]] + Unescape(s[1..])
    else if |s| == 1 then ""
    else [s[1]] + Unescape(s[2..])
  }

  /** Every backslash has its character; the lexer refuses a trailing one. */
  predicate WellEscaped(s: string) {
    s == "" || if s[0] != '\\' then WellEscaped(s[1..]) else |s| > 1 && WellEscaped(s[2..])
  }

  predicate SameText(icase: bool, u: string, input: string) {
    |u| == |input| && Occurs(icase, u, input, 0)
  }

  lemma TerminatorDiffers(icase: bool, c: char)
    requires c != '\0'
    ensures !CharEq(icase, '\0', c) && !CharEq(icase, c, '\0')
  {
  }

  // ----- the pattern pointer -----

  /** Where the pattern pointer looks: past the backslash, if it is at one. */
  function Look(simple: string, s: int): int
    requires 0 <= s < |simple|
  {
    if simple[s] == '\\' then s + 1 else s
  }

  /** Where the pattern pointer s goes on character c while searching. After a mismatch it is
      back at the first character of the pattern as written. */
  function SearchStep(icase: bool, simple: string, s: int, c: char): (s': int)
    requires 0 <= s < |simple|
    ensures 0 <= s' <= |simple| || c == '\0'
  {
    var t := Look(simple, s);
    if CharEq(icase, CharAt(simple, t), c) then t + 1
    else if t != 0 && CharEq(icase, simple[0], c) then 1
    else 0
  }

  datatype Found = NotFound | Found(start: int, end: int)

  /** The whole search: the match is counted from the last restart. */
  function SearchRaw(icase: bool, simple: string, input: string, p: int, s: int, start: int): (r: Found)
    requires NulFree(input) && 0 <= p <= |input| && 0 <= s <= |simple|
    ensures r.Found? ==> p <= r.end <= |input|
    decreases |input| - p
  {
    if s == |simple| then Found(start, p)
    else if p == |input| then NotFound
    else
      var s' := SearchStep(icase, simple, s, input[p]);
      var t := Look(simple, s);
      var start' :=
        if s' == t + 1 && CharEq(icase, CharAt(simple, t), input[p]) then start
        else if s' == 1 then p
        else p + 1;
      SearchRaw(icase, simple, input, p + 1, s', start')
  }

  /** The pointer s stands before literal number k of u. */
  ghost predicate PointsAt(simple: string, s: int, u: string, k: int) {
    && 0 <= s <= |simple| && 0 <= k <= |u|
    && WellEscaped(simple[s..]) && Unescape(simple[s..]) == u[k..]
  }

  lemma PointsOn(simple: string, s: int, u: string, k: int)
    requires PointsAt(simple, s, u, k)
    ensures s == |simple| <==> k == |u|
    ensures s < |simple| ==>
      && k < |u| && Look(simple, s) < |simple| && u[k] == simple[Look(simple, s)]
      && PointsAt(simple, Look(simple, s) + 1, u, k + 1)
  {
    if s < |simple| {
      var rest, t := simple[s..], Look(simple, s);
      assert rest[t + 1 - s..] == simple[t + 1..];
      assert u[k..] == [simple[t]] + Unescape(simple[t + 1..]);
      assert u[k..][0] == u[k] && u[k..][1..] == u[k + 1..];
    }
  }

  /** Where the loop stands: in match mode the input so far is the literals so far; in search
      mode the rest of the search starts here. */
  ghost predicate Standing(simple: string, input: string, icase: bool, search: bool, s: int, chars: int, start: int)
    requires NulFree(input)
  {
    && 0 <= s <= |simple| && 0 <= chars <= |input|
    && (!search ==>
          var u := Unescape(simple);
          start == 0 && PointsAt(simple, s, u, chars) && SameText(icase, u[..chars], input[..chars]))
    && (search ==> SearchRaw(icase, simple, input, 0, 0, 0) == SearchRaw(icase, simple, input, chars, s, start))
  }

  /** What the call has to answer. */
  ghost predicate Answers(simple: string, input: string, icase: bool, search: bool, ret: int, start: int, end: int)
    requires NulFree(input)
  {
    var u := Unescape(simple);
    if search then
      && ret == 1
      && match SearchRaw(icase, simple, input, 0, 0, 0)
         case NotFound => end == 0
         case Found(s, e) => start == s && end == e + 1
    else if |u| <= |input| && SameText(icase, u, input[..|u|]) then ret == 1 && start == 0 && end == |u| + 1
    else end == 0
  }

  lemma StandingStart(simple: string, input: string, icase: bool, search: bool)
    requires WellEscaped(simple) && NulFree(input)
    ensures Standing(simple, input, icase, search, 0, 0, 0)
  {
    assert simple[0..] == simple && Unescape(simple)[0..] == Unescape(simple);
  }

  /** The pattern pointer is at a character, the terminator at worst. */
  lemma StandingLook(simple: string, input: string, icase: bool, search: bool, s: int, chars: int, start: int)
    requires NulFree(input) && s < |simple| && Standing(simple, input, icase, search, s, chars, start)
    ensures 0 <= Look(simple, s) <= |simple|
    ensures chars < |input| && Look(simple, s) == |simple| ==> !CharEq(icase, CharAt(simple, |simple|), input[chars])
  {
    if chars < |input| { TerminatorDiffers(icase, input[chars]); }
  }

  lemma StandingMatch(simple: string, input: string, icase: bool, search: bool, s: int, chars: int, start: int)
    requires NulFree(input) && s < |simple| && Standing(simple, input, icase, search, s, chars, start)
    requires chars < |input| && Look(simple, s) < |simple| && CharEq(icase, simple[Look(simple, s)], input[chars])
    ensures Standing(simple, input, icase, search, Look(simple, s) + 1, chars + 1, start)
  {
    if !search {
      var u := Unescape(simple);
      PointsOn(simple, s, u, chars);
      assert u[..chars + 1] == u[..chars] + [u[chars]];
      assert input[..chars + 1] == input[..chars] + [input[chars]];
    }
  }

  lemma StandingMiss(simple: string, input: string, icase: bool, s: int, chars: int, start: int, s': int, start': int)
    requires NulFree(input) && s < |simple| && Standing(simple, input, icase, true, s, chars, start)
    requires chars < |input| && Look(simple, s) <= |simple|
    requires !CharEq(icase, CharAt(simple, Look(simple, s)), input[chars])
    requires if Look(simple, s) != 0 && CharEq(icase, simple[0], input[chars]) then s' == 1 && start' == chars
             else s' == 0 && start' == chars + 1
    ensures Standing(simple, input, icase, true, s', chars + 1, start')
  {
  }

  /** A mismatch in match mode, or the end of the input: the input does not start with the
      literals. */
  lemma StandingFails(simple: string, input: string, icase: bool, search: bool, s: int, chars: int, start: int,
                      ret: int)
    requires NulFree(input) && s < |simple| && Standing(simple, input, icase, search, s, chars, start)
    requires Look(simple, s) <= |simple| && (search ==> ret == 1)
    requires if chars < |input| then !search && !CharEq(icase, CharAt(simple, Look(simple, s)), input[chars]) else true
    ensures Answers(simple, input, icase, search, ret, start, 0)
  {
    if !search { PointsOn(simple, s, Unescape(simple), chars); }
  }

  lemma StandingDone(simple: string, input: string, icase: bool, search: bool, chars: int, start: int)
    requires NulFree(input) && Standing(simple, input, icase, search, |simple|, chars, start)
    ensures Answers(simple, input, icase, search, 1, start, chars + 1)
  {
    if !search {
      PointsOn(simple, |simple|, Unescape(simple), chars);
      assert Unescape(simple)[..chars] == Unescape(simple);
    }
  }

  /** The part after a mismatch while searching: back to the first character of the pattern, which
      is compared with the same input character unless it was just the one compared. */
  method Restart(simple: string, icase: bool, s: int, c: char, chars: int) returns (s': int, start: int)
    requires simple != ""
    ensures if s != 0 && CharEq(icase, simple[0], c) then s' == 1 && start == chars - 1 else s' == 0 && start == chars
  {
    s', start := s, chars;
    if s != 0 {
      s' := 0;
      start := start - 1;
      if !CharEq(icase, simple[0], c) {
        start := chars;
      } else {
        s' := s' + 1;
      }
    }
  }

  /** simple_match. In match mode it succeeds at the end of the pattern whatever follows, and
      also returns 1, with matchEnd 0, when the input ends first. */
  method Run(simple: string, input: string, icase: bool, search: bool)
    returns (ret: int, matchStart: int, matchEnd: int)
    requires WellEscaped(simple) && NulFree(input)
    ensures Answers(simple, input, icase, search, ret, matchStart, matchEnd)
  {
    var s, chars := 0, 0;
    matchStart, matchEnd := 0, 0;
    StandingStart(simple, input, icase, search);
    while s < |simple|
      invariant Standing(simple, input, icase, search, s, chars, matchStart) && matchEnd == 0
      decreases |input| - chars
    {
      ghost var s0, start0 := s, matchStart;
      StandingLook(simple, input, icase, search, s, chars, matchStart);
      var c := CharAt(input, chars);
      chars := chars + 1;
      if c == '\0' {
        StandingFails(simple, input, icase, search, s0, chars - 1, start0, 1);
        return 1, matchStart, matchEnd;
      }
      if simple[s] == '\\' {
        s := s + 1;
      }
      if !CharEq(icase, CharAt(simple, s), c) {
        if !search {
          StandingFails(simple, input, icase, search, s0, chars - 1, start0, 0);
          return 0, matchStart, matchEnd;
        }
        s, matchStart := Restart(simple, icase, s, c, chars);
        StandingMiss(simple, input, icase, s0, chars - 1, start0, s, matchStart);
      } else {
        StandingMatch(simple, input, icase, search, s0, chars - 1, start0);
        s := s + 1;
      }
    }
    StandingDone(simple, input, icase, search, chars, matchStart);
    matchEnd := chars + 1;
    ret := 1;
  }
}
