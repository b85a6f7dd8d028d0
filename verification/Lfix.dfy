/** The longest fixed substring of a pattern: the counters of librxvm/lfix.c, the places where
    librxvm/stage1.c calls them, and librxvm/lfix_to_str.c. FixedText.dfy says what the
    substring found is good for. */
module Lfix {
  import opened Regex
  import opened Lexer
  import opened Context

  /** The values of an unsigned int. */
  const UINT_SIZE := 0x1_0000_0000

  /** What unsigned arithmetic makes of x. */
  function Unsigned(x: int): (r: int)
    ensures 0 <= r < UINT_SIZE && (0 <= x < UINT_SIZE ==> r == x)
  {
    if 0 <= x < UINT_SIZE then x else x % UINT_SIZE
  }

  /** The five counters. temp0..tempn are the first and the last place of the run at hand,
      fix0..fixn those of the longest run so far, with backslashes not counted. */
  datatype Marks = Marks(temp0: int, tempn: int, fix0: int, fixn: int, running: bool)

  function Continued(m: Marks, lp1: int): Marks {
    if m.running then m.(tempn := Unsigned(m.tempn + 1))
    else m.(running := true, temp0 := Unsigned(lp1), tempn := Unsigned(lp1))
  }

  function Shorter(m: Marks): Marks {
    if m.tempn > m.temp0 then m.(tempn := m.tempn - 1) else m
  }

  function Ended(m: Marks): Marks {
    var longer := Unsigned(m.tempn - m.temp0) > Unsigned(m.fixn - m.fix0);
    var best := if longer then m.(fix0 := m.temp0, fixn := m.tempn) else m;
    best.(running := false, temp0 := 0, tempn := 0)
  }

  class Tracker {
    var ltemp0: int
    var ltempn: int
    var lfix0: int
    var lfixn: int
    var lfixs: bool

    constructor ()
    {
    }

    function Now(): Marks
      reads this
    {
      Marks(ltemp0, ltempn, lfix0, lfixn, lfixs)
    }

    /** lfix_zero: the flag of a run in progress stays as an earlier compilation left it. */
    method Zero()
      modifies this
      ensures Now() == Marks(0, 0, 0, 0, old(lfixs))
    {
      ltemp0, ltempn, lfix0, lfixn := 0, 0, 0, 0;
    }

    method Start(lp1: int)
      modifies this
      ensures Now() == old(Now()).(running := true, temp0 := Unsigned(lp1), tempn := Unsigned(lp1))
    {
      lfixs := true;
      ltemp0, ltempn := Unsigned(lp1), Unsigned(lp1);
    }

    method Continue(lp1: int)
      modifies this
      ensures Now() == Continued(old(Now()), lp1)
    {
      if lfixs {
        ltempn := Unsigned(ltempn + 1);
      } else {
        Start(lp1);
      }
    }

    method SetLongest()
      modifies `lfix0, `lfixn
      ensures lfix0 == ltemp0 && lfixn == ltempn
    {
      lfix0 := ltemp0;
      lfixn := ltempn;
    }

    method Stop()
      modifies this
      ensures Now() == Ended(old(Now()))
    {
      if Unsigned(ltempn - ltemp0) > Unsigned(lfixn - lfix0) {
        SetLongest();
      }
      lfixs, ltemp0, ltempn := false, 0, 0;
    }

    method Dec()
      modifies `ltempn
      ensures Now() == Shorter(old(Now()))
    {
      if ltempn > ltemp0 {
        ltempn := ltempn - 1;
      }
    }

    method SetTempN(val: int)
      modifies `ltempn
      ensures Now() == old(Now()).(tempn := Unsigned(val))
    {
      ltempn := Unsigned(val);
    }
  }

  // ----- where stage 1 calls them -----

  /** The counters, and what stage 1 looks at before it calls them. */
  datatype Track = Track(marks: Marks, depth: int, inClass: bool, altSeen: bool, newline: bool)

  /** The counts after which process_op_rep shortens the run; {0,m} is not among them. */
  predicate Drops(counts: (int, int)) {
    (counts.0 == FIELD_EMPTY && counts.1 >= 0) || (counts.0 == 0 && counts.1 == FIELD_EMPTY)
  }

  predicate DropsLast(tok: Token) {
    tok == Zero || tok == OneZero || (tok.Rep? && RepText(tok.counts) && Drops(RepCounts(tok.counts)))
  }

  /** lex notes any newline it takes literally. */
  predicate SeesNewline(tok: Token) {
    tok == Literal('\n') || (tok.CharRange? && tok.from == '\n')
  }

  /** One token that ends at next. */
  function TrackToken(t0: Track, tok: Token, next: int): Track {
    var t := t0.(newline := t0.newline || SeesNewline(tok));
    if t.inClass then t.(inClass := tok != CharcClose)
    else if tok.Literal? then
      if t.newline || t.depth != 0 then t else t.(marks := Continued(t.marks, next - 1))
    else
      Track(Ended(if DropsLast(tok) then Shorter(t.marks) else t.marks),
            if tok == LParen then t.depth + 1 else if tok == RParen then t.depth - 1 else t.depth,
            tok == CharcOpen, t.altSeen || (tok == Alt && t.depth == 0), t.newline)
  }

  function TrackAll(text: string, p: int, lit: bool, t: Track): Track
    requires 0 <= p <= |text|
    decreases |text| - p
  {
    var r := LexAt(text, p, lit);
    if r.tok == End || r.tok.Fail? then t
    else TrackAll(text, r.next, r.literal, TrackToken(t, r.tok, r.next))
  }

  /** Where the leading literals end. */
  function LeadEnd(text: string, p: int): (e: int)
    requires 0 <= p <= |text|
    ensures p <= e <= |text|
    decreases |text| - p
  {
    var r := LexAt(text, p, false);
    if r.tok.Literal? then LeadEnd(text, r.next) else p
  }

  /** The end of the run of leading literals, from orig to simple, as compile_simple_backlog
      counts it. */
  function BacklogMark(text: string, simple: int, orig: int, fixtemp: int, delimit: int): int
    requires 0 <= orig && simple <= |text|
    decreases simple - orig
  {
    if orig >= simple then (if fixtemp != 0 then fixtemp else orig - 1 - delimit)
    else
      var (o, d) := if text[orig] == '\\' then (orig + 1, delimit + 1) else (orig, delimit);
      var f := if fixtemp == 0 && o < simple && text[o] == '\n' then o - 1 - d else fixtemp;
      BacklogMark(text, simple, o + 1, f, d)
  }

  /** check_simple_for_lfix: a backslash before another one is counted like any. */
  function SimpleMark(text: string, i: int, delimit: int): int
    requires 0 <= i <= |text|
    decreases |text| - i
  {
    if i == |text| || text[i] == '\n' then i - 1 - delimit
    else SimpleMark(text, i + 1, if text[i] == '\\' then delimit + 1 else delimit)
  }

  /** What stage 1 leaves in lfix0 and lfixn, for the compilation that takes the pattern. */
  function Fixed(text: string, running: bool): (int, int) {
    var simple := LeadEnd(text, 0);
    if simple == |text| then (0, Unsigned(SimpleMark(text, 0, 0)))
    else
      var m := Marks(0, if simple > 0 then Unsigned(BacklogMark(text, simple, 0, 0, 0)) else 0, 0, 0, running);
      var t := TrackAll(text, simple, false, Track(m, 0, false, false, '\n' in text[..simple]));
      if t.altSeen then (0, 0) else (Ended(t.marks).fix0, Ended(t.marks).fixn)
  }

  /** How long the substring between the places is, as rxvm_compile computes it; it is kept only
      if longer than 1. */
  function FixedSize(at: (int, int)): (n: int)
    ensures 0 <= n < UINT_SIZE
  {
    Unsigned(Unsigned(at.1 - at.0) + 1)
  }

  method CountBacklog(text: string, simple: int) returns (mark: int)
    requires 0 <= simple <= |text|
    ensures mark == BacklogMark(text, simple, 0, 0, 0)
  {
    var orig, fixtemp, delimit := 0, 0, 0;
    while orig < simple
      invariant 0 <= orig
      invariant BacklogMark(text, simple, orig, fixtemp, delimit) == BacklogMark(text, simple, 0, 0, 0)
      decreases simple - orig
    {
      if text[orig] == '\\' {
        delimit := delimit + 1;
        orig := orig + 1;
      }
      if fixtemp == 0 && orig < simple && text[orig] == '\n' {
        fixtemp := orig - 1 - delimit;
      }
      orig := orig + 1;
    }
    mark := if fixtemp != 0 then fixtemp else orig - 1 - delimit;
  }

  method CountSimple(text: string) returns (mark: int)
    ensures mark == SimpleMark(text, 0, 0)
  {
    var i, delimit := 0, 0;
    while i < |text|
      invariant 0 <= i <= |text| && SimpleMark(text, i, delimit) == SimpleMark(text, 0, 0)
    {
      if text[i] == '\\' {
        delimit := delimit + 1;
      } else if text[i] == '\n' {
        return i - 1 - delimit;
      }
      i := i + 1;
    }
    mark := i - 1 - delimit;
  }

  /** The calls that one token makes outside brackets. */
  method OnToken(tracker: Tracker, tok: Token, lp1: int, depth: int, newline: bool)
    modifies tracker
    ensures tracker.Now() ==
      if tok.Literal? then (if newline || depth != 0 then old(tracker.Now()) else Continued(old(tracker.Now()), lp1))
      else Ended(if DropsLast(tok) then Shorter(old(tracker.Now())) else old(tracker.Now()))
  {
    if tok.Literal? {
      if !newline && depth == 0 {
        tracker.Continue(lp1);
      }
    } else {
      if DropsLast(tok) {
        tracker.Dec();
      }
      tracker.Stop();
    }
  }

  lemma LeadingChars(text: string, p: int)
    requires 0 <= p <= |text| && LexAt(text, p, false).tok.Literal?
    ensures var r := LexAt(text, p, false);
      && !r.literal && ('\n' in text[..r.next] <==> '\n' in text[..p] || r.tok.c == '\n')
  {
    var r := LexAt(text, p, false);
    assert text[..r.next] == text[..p] + text[p..r.next];
    if text[p] == '\\' {
      assert text[p..r.next] == ['\\', text[p + 1]];
    } else {
      assert text[p..r.next] == [text[p]];
    }
  }

  /** The scanner has taken the token at p and stands behind it. */
  ghost predicate Took(scanner: Scanner, tok: Token, p: int, lit: bool)
    reads scanner
  {
    && scanner.Valid() && 0 <= p <= |scanner.text|
    && var r := LexAt(scanner.text, p, lit);
      tok == r.tok && (tok.Fail? || (scanner.pos == r.next && scanner.literal == r.literal))
  }

  /** The leading literals; simple is where they end. */
  method SkipLiterals(scanner: Scanner) returns (simple: int, tok: Token, newline: bool)
    requires scanner.Valid() && scanner.pos == 0 && !scanner.literal
    modifies scanner
    ensures Took(scanner, tok, simple, false) && !tok.Literal?
    ensures simple == LeadEnd(scanner.text, 0) && (newline <==> '\n' in scanner.text[..simple])
  {
    simple, newline := 0, false;
    tok := scanner.Lex();
    while tok.Literal?
      invariant Took(scanner, tok, simple, false)
      invariant LeadEnd(scanner.text, simple) == LeadEnd(scanner.text, 0)
      invariant newline <==> '\n' in scanner.text[..simple]
      decreases |scanner.text| - simple
    {
      LeadingChars(scanner.text, simple);
      newline := newline || tok.c == '\n';
      simple := scanner.pos;
      tok := scanner.Lex();
    }
  }

  lemma TrackOn(text: string, p: int, lit: bool, t: Track)
    requires 0 <= p <= |text|
    ensures var r := LexAt(text, p, lit);
      TrackAll(text, p, lit, t) ==
      if r.tok == End || r.tok.Fail? then t else TrackAll(text, r.next, r.literal, TrackToken(t, r.tok, r.next))
  {
  }

  /** One turn of the loop of stage 1. */
  method HandleToken(tracker: Tracker, tok: Token, next: int, depth: int, inClass: bool, altSeen: bool, newline: bool)
    returns (depth': int, inClass': bool, altSeen': bool, newline': bool)
    modifies tracker
    ensures Track(tracker.Now(), depth', inClass', altSeen', newline') ==
            TrackToken(Track(old(tracker.Now()), depth, inClass, altSeen, newline), tok, next)
  {
    depth', inClass', altSeen', newline' := depth, inClass, altSeen, newline || SeesNewline(tok);
    if inClass {
      inClass' := tok != CharcClose;
    } else {
      OnToken(tracker, tok, next - 1, depth, newline');
      if tok == Alt && depth == 0 {
        altSeen' := true;
      } else if tok == LParen {
        depth' := depth + 1;
      } else if tok == RParen {
        depth' := depth - 1;
      } else if tok == CharcOpen {
        inClass' := true;
      }
    }
  }

  /** The tokens from the first that is no leading literal on. */
  method TrackTokens(tracker: Tracker, scanner: Scanner, first: Token, start: int, seen: bool) returns (altSeen: bool)
    requires Took(scanner, first, start, false)
    modifies tracker, scanner
    ensures var t := TrackAll(scanner.text, start, false, Track(old(tracker.Now()), 0, false, false, seen));
      tracker.Now() == t.marks && altSeen == t.altSeen
  {
    var tok, depth, inClass, newline := first, 0, false, seen;
    altSeen := false;
    ghost var p, lit, t := start, false, Track(tracker.Now(), 0, false, false, seen);
    ghost var goal := TrackAll(scanner.text, p, lit, t);
    while tok != Token.End && !tok.Fail?
      invariant Took(scanner, tok, p, lit)
      invariant t == Track(tracker.Now(), depth, inClass, altSeen, newline)
      invariant TrackAll(scanner.text, p, lit, t) == goal
      decreases |scanner.text| - p
    {
      TrackOn(scanner.text, p, lit, t);
      p, lit, t := scanner.pos, scanner.literal, TrackToken(t, tok, scanner.pos);
      depth, inClass, altSeen, newline := HandleToken(tracker, tok, scanner.pos, depth, inClass, altSeen, newline);
      tok := scanner.Lex();
    }
    TrackOn(scanner.text, p, lit, t);
  }

  /** The tracker driven by the tokens of a pattern. */
  method FixedPart(tracker: Tracker, text: string) returns (lfix0: int, lfixn: int)
    modifies tracker
    ensures (lfix0, lfixn) == Fixed(text, old(tracker.lfixs))
  {
    tracker.Zero();
    var scanner := new Scanner(text);
    var simple, tok, newline := SkipLiterals(scanner);
    if tok == Token.End {
      var mark := CountSimple(text);
      return 0, Unsigned(mark);
    }
    if simple > 0 {
      var mark := CountBacklog(text, simple);
      tracker.SetTempN(mark);
    }
    var altSeen := TrackTokens(tracker, scanner, tok, simple, newline);
    tracker.Stop();
    lfix0, lfixn := tracker.lfix0, tracker.lfixn;
    if altSeen {
      lfix0, lfixn := 0, 0;
    }
  }

  // ----- lfix_to_str -----

  /** One more than the greatest int. */
  const INT_SIZE := 0x8000_0000

  /** What an unsigned int is when assigned to an int. */
  function Signed(x: int): int { if x < INT_SIZE then x else x - UINT_SIZE }

  /** How many characters lfix_to_str copies: it keeps its places in ints. */
  function Copied(at: (int, int)): (n: int)
    ensures 0 <= n
  {
    Max(0, Signed(at.1) - Signed(at.0) + 1)
  }

  /** How many characters that are no backslash there are. */
  function Kept(s: string): nat {
    if s == "" then 0 else (if s[0] == '\\' then 0 else 1) + Kept(s[1..])
  }

  /** The first n characters from i on that are no backslash; the terminator is one of them, and
      behind it there is nothing to read. */
  function Collect(orig: string, i: int, n: int): string
    decreases |orig| - i
  {
    if n <= 0 || i < 0 || i > |orig| then ""
    else if CharAt(orig, i) == '\\' then Collect(orig, i + 1, n)
    else [CharAt(orig, i)] + Collect(orig, i + 1, n - 1)
  }

  /** From i on there are n characters that are no backslash. */
  predicate CanGo(orig: string, i: int, n: int) {
    0 <= i <= |orig| && n <= Kept(orig[i..])
  }

  /** The same, if the terminator is counted: nothing behind it is read. */
  predicate InBounds(orig: string, i: int, n: int) {
    n <= 0 || (0 <= i <= |orig| && n <= Kept(orig[i..]) + 1)
  }

  /** One step: `done` is what has been copied. */
  lemma CollectOn(orig: string, i: int, n: int, done: string)
    requires InBounds(orig, i, n) && n > 0
    ensures 0 <= i <= |orig|
    ensures CharAt(orig, i) == '\\' ==>
      n <= |orig| - i && InBounds(orig, i + 1, n) && Collect(orig, i, n) == Collect(orig, i + 1, n)
    ensures CharAt(orig, i) != '\\' ==>
      InBounds(orig, i + 1, n - 1) &&
      done + Collect(orig, i, n) == (done + [CharAt(orig, i)]) + Collect(orig, i + 1, n - 1)
  {
    assert CharAt(orig, i) != '\\' ==> Collect(orig, i, n) == [CharAt(orig, i)] + Collect(orig, i + 1, n - 1);
    if i < |orig| {
      assert orig[i..][1..] == orig[i + 1..];
      KeptFewer(orig[i + 1..]);
    }
  }

  lemma {:induction false} KeptFewer(s: string)
    ensures Kept(s) <= |s|
    decreases |s|
  {
    if s != "" { KeptFewer(s[1..]); }
  }

  /** lfix_to_str: the substring without its backslashes, in a buffer of the size allocated. An end
      that is too great for an int is negative there, and nothing is copied. */
  method LfixToStr(orig: string, lfix0: int, lfixn: int, lfix: array<char>)
    requires 0 <= lfix0 < UINT_SIZE && 0 <= lfixn < UINT_SIZE
    requires InBounds(orig, Signed(lfix0), Copied((lfix0, lfixn)))
    requires lfix.Length == FixedSize((lfix0, lfixn)) + 1
    modifies lfix
    ensures var n := Copied((lfix0, lfixn));
      n < lfix.Length && lfix[..n] == Collect(orig, Signed(lfix0), n) && lfix[n] == '\0'
  {
    var end, bufi, i := Signed(lfixn), 0, Signed(lfix0);
    ghost var n, rest := Copied((lfix0, lfixn)), Copied((lfix0, lfixn));
    ghost var goal := Collect(orig, i, n);
    while i <= end
      invariant 0 <= bufi && bufi + rest == n < lfix.Length && rest == Max(0, end - i + 1)
      invariant InBounds(orig, i, rest) && lfix[..bufi] + Collect(orig, i, rest) == goal
      decreases |orig| - i
    {
      ghost var done := lfix[..bufi];
      CollectOn(orig, i, rest, done);
      if CharAt(orig, i) == '\\' {
        end := end + 1;
        assert end <= |orig|;
      } else {
        lfix[bufi] := CharAt(orig, i);
        bufi, rest := bufi + 1, rest - 1;
        assert lfix[..bufi] == done + [CharAt(orig, i)];
      }
      i := i + 1;
    }
    assert lfix[..bufi] == goal;
    lfix[bufi] := '\0';
  }
}
