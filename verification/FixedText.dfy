/** What the fixed substring is good for: every match of the pattern contains it. The places
    counted by the tracker are first read as the text they stand for, token by token; then
    the text is followed over the tree. */
module FixedText {
  import opened Regex
  import opened Lexer
  import opened Sentences
  import opened Context
  import opened Compilation
  import opened Lfix
  import opened Rxvm

  // ----- the tracker on texts -----

  /** The run at hand and the longest one, as texts. loose: the longest one ends at a literal that
      a range may leave out. */
  datatype Run = Run(cur: string, best: string, loose: bool)

  /** The runs, and where the tracker is. lead: there were only literals so far. held: because of a
      newline no literal is added to the run any more. */
  datatype Fix = Fix(run: Run, depth: int, inClass: bool, alt: bool, lead: bool, newline: bool, held: bool)

  const NOTHING := Fix(Run("", "", false), 0, false, false, true, false, false)

  /** The run ends, at a literal with a range from zero or not. */
  function Stopped(r: Run, zero: bool): Run {
    if |r.cur| >= 2 && |r.cur| > |r.best| then Run("", r.cur, zero) else r.(cur := "")
  }

  /** A range with both counts, one of them zero: it does not shorten the run. */
  predicate ZeroRange(counts: (int, int)) {
    counts.0 >= 0 && counts.1 >= 0 && (counts.0 == 0 || counts.1 == 0)
  }

  predicate ZeroRep(tok: Token) {
    tok.Rep? && RepText(tok.counts) && ZeroRange(RepCounts(tok.counts))
  }

  function Shortened(r: Run): Run {
    if |r.cur| >= 2 then r.(cur := r.cur[..|r.cur| - 1]) else r
  }

  /** A newline holds the run; but among the leading literals not if it is the second of them,
      because the place in front of it is 0, which stands for none. */
  function FixToken(f: Fix, tok: Token): Fix {
    var newline := f.newline || SeesNewline(tok);
    if f.inClass then f.(inClass := tok != CharcClose, newline := newline, held := newline)
    else if tok.Literal? then
      var held := if f.lead then f.held || (tok.c == '\n' && |f.run.cur| != 1) else newline;
      var run := if held || f.depth != 0 then f.run else f.run.(cur := f.run.cur + [tok.c]);
      f.(run := run, newline := newline, held := held)
    else
      Fix(Stopped(if DropsLast(tok) then Shortened(f.run) else f.run, ZeroRep(tok) && !f.held),
          if tok == LParen then f.depth + 1 else if tok == RParen then f.depth - 1 else f.depth,
          tok == CharcOpen, f.alt || (tok == Alt && f.depth == 0), false, newline, newline)
  }

  function FixAll(f: Fix, toks: seq<Token>): Fix
    decreases |toks|
  {
    if toks == [] then f else FixAll(FixToken(f, toks[0]), toks[1..])
  }

  lemma {:induction false} FixConcat(f: Fix, a: seq<Token>, b: seq<Token>)
    ensures FixAll(f, a + b) == FixAll(FixAll(f, a), b)
    decreases |a|
  {
    if a == [] {
      assert a + b == b;
    } else {
      assert (a + b)[0] == a[0] && (a + b)[1..] == a[1..] + b;
      FixConcat(FixToken(f, a[0]), a[1..], b);
    }
  }

  lemma FixOne(f: Fix, tok: Token)
    ensures FixAll(f, [tok]) == FixToken(f, tok)
  {
    assert [tok][1..] == [];
  }

  // ----- texts in the pattern -----

  /** From q to p the pattern spells s, escaped or not. */
  predicate Spells(text: string, q: int, s: string, p: int)
    decreases |s|
  {
    && 0 <= q <= p <= |text|
    && if s == "" then q == p
       else
         && q < |text|
         && if text[q] == '\\' then q + 1 < |text| && text[q + 1] == s[0] && Spells(text, q + 2, s[1..], p)
            else text[q] == s[0] && Spells(text, q + 1, s[1..], p)
  }

  /** The same from i, where i may be the place of an escaped character behind its backslash. */
  ghost predicate Spelled(text: string, i: int, s: string, p: int) {
    Spells(text, i, s, p) || (0 < i <= |text| && text[i - 1] == '\\' && Spells(text, i - 1, s, p))
  }

  ghost predicate SpelledFrom(text: string, i: int, s: string) {
    exists p :: Spelled(text, i, s, p)
  }

  lemma {:induction false} SpellsOn(text: string, q: int, s: string, p: int, c: char, p2: int)
    requires Spells(text, q, s, p) && Spells(text, p, [c], p2)
    ensures Spells(text, q, s + [c], p2)
    decreases |s|
  {
    if s == "" {
      assert s + [c] == [c];
    } else {
      assert (s + [c])[0] == s[0] && (s + [c])[1..] == s[1..] + [c];
      SpellsOn(text, if text[q] == '\\' then q + 2 else q + 1, s[1..], p, c, p2);
    }
  }

  lemma {:induction false} SpellsFits(text: string, q: int, s: string, p: int)
    requires Spells(text, q, s, p)
    ensures q + |s| <= p
    decreases |s|
  {
    if s != "" { SpellsFits(text, if text[q] == '\\' then q + 2 else q + 1, s[1..], p); }
  }

  lemma SpelledFits(text: string, i: int, s: string, p: int)
    requires Spelled(text, i, s, p) && s != ""
    ensures 0 <= i && i + |s| <= p <= |text|
  {
    if Spells(text, i, s, p) {
      SpellsFits(text, i, s, p);
    } else {
      SpellsFits(text, i + 1, s[1..], p);
    }
  }

  lemma SpelledOn(text: string, i: int, s: string, p: int, c: char, p2: int)
    requires Spelled(text, i, s, p) && Spells(text, p, [c], p2)
    ensures Spelled(text, i, s + [c], p2)
  {
    SpellsOn(text, if Spells(text, i, s, p) then i else i - 1, s, p, c, p2);
  }

  lemma {:induction false} SpellsLess(text: string, q: int, s: string, p: int) returns (r: int)
    requires Spells(text, q, s, p) && s != ""
    ensures Spells(text, q, s[..|s| - 1], r)
    decreases |s|
  {
    var t := s[..|s| - 1];
    if t == "" {
      r := q;
    } else {
      r := SpellsLess(text, if text[q] == '\\' then q + 2 else q + 1, s[1..], p);
      assert t[0] == s[0] && t[1..] == s[1..][..|s| - 2];
    }
  }

  lemma SpelledLess(text: string, i: int, s: string, p: int)
    requires Spelled(text, i, s, p) && s != ""
    ensures SpelledFrom(text, i, s[..|s| - 1])
  {
    var r := SpellsLess(text, if Spells(text, i, s, p) then i else i - 1, s, p);
    assert Spelled(text, i, s[..|s| - 1], r);
  }

  /** What lfix_to_str makes of a stretch that spells s, if no backslash is spelled in it. */
  lemma {:induction false} CollectSpells(text: string, q: int, s: string, p: int)
    requires Spells(text, q, s, p) && '\\' !in s
    ensures CanGo(text, q, |s|) && Collect(text, q, |s|) == s
    decreases |s|
  {
    if s != "" {
      var o := if text[q] == '\\' then q + 1 else q;
      assert forall k :: 0 <= k < |s[1..]| ==> s[1..][k] == s[k + 1];
      CollectSpells(text, o + 1, s[1..], p);
      assert text[q..][1..] == text[q + 1..];
      if text[q] == '\\' { assert text[o..][1..] == text[o + 1..]; }
      assert s == [s[0]] + s[1..];
    }
  }

  lemma CollectSpelled(text: string, i: int, s: string, p: int)
    requires Spelled(text, i, s, p) && '\\' !in s
    ensures CanGo(text, i, |s|) && Collect(text, i, |s|) == s
  {
    if Spells(text, i, s, p) {
      CollectSpells(text, i, s, p);
    } else {
      CollectSpells(text, i - 1, s, p);
      assert text[i - 1..][1..] == text[i..];
    }
  }

  /** It never returns a backslash. */
  lemma {:induction false} CollectDrops(text: string, i: int, n: int)
    ensures '\\' !in Collect(text, i, n)
    decreases |text| - i
  {
    if n > 0 && 0 <= i <= |text| {
      CollectDrops(text, i + 1, n);
      CollectDrops(text, i + 1, n - 1);
    }
  }

  lemma LiteralSpelled(text: string, p: int, c: char, next: int)
    requires 0 <= p <= |text| && LexAt(text, p, false) == Lexed(Literal(c), next, false)
    ensures Spells(text, p, [c], next) && Spelled(text, next - 1, [c], next)
  {
    assert [c][1..] == "";
  }

  // ----- places and texts agree -----

  /** No counter wraps around. */
  predicate Small(m: Marks) { 0 <= m.temp0 <= m.tempn < UINT_SIZE - 1 && 0 <= m.fix0 <= m.fixn < UINT_SIZE - 1 }

  ghost predicate Over(text: string, m: Marks, r: Run) {
    && Small(m)
    && (if r.cur == "" then m.temp0 == 0 && m.tempn == 0
        else m.tempn == m.temp0 + |r.cur| - 1 && SpelledFrom(text, m.temp0, r.cur))
    && (if r.best == "" then m.fix0 == 0 && m.fixn == 0
        else |r.best| >= 2 && m.fixn == m.fix0 + |r.best| - 1 && SpelledFrom(text, m.fix0, r.best))
  }

  /** A run that is not held ends where the lexer is. */
  ghost predicate Shows(text: string, m: Marks, f: Fix, p: int) {
    Over(text, m, f.run) && (f.run.cur != "" && !f.held ==> Spelled(text, m.temp0, f.run.cur, p))
  }

  /** Behind the leading literals any newline holds the run. */
  predicate Settled(f: Fix) { !f.lead ==> f.held == f.newline }

  ghost predicate Agree(text: string, t: Track, f: Fix, p: int) {
    && Shows(text, t.marks, f, p) && t.depth == f.depth && t.inClass == f.inClass && t.altSeen == f.alt
    && t.newline == f.newline && Settled(f) && (f.depth != 0 || f.inClass ==> f.run.cur == "")
  }

  ghost predicate Live(t: Track, f: Fix) { (t.marks.running <==> f.run.cur != "") && !f.lead }

  lemma ShorterOver(text: string, m: Marks, r: Run)
    requires Over(text, m, r)
    ensures Over(text, Shorter(m), Shortened(r))
  {
    if r.cur != "" {
      var p :| Spelled(text, m.temp0, r.cur, p);
      SpelledLess(text, m.temp0, r.cur, p);
    }
  }

  lemma EndedOver(text: string, m: Marks, r: Run, zero: bool)
    requires Over(text, m, r)
    ensures Over(text, Ended(m), Stopped(r, zero))
  {
  }

  lemma StopOver(text: string, m: Marks, r: Run, drop: bool, zero: bool)
    requires Over(text, m, r)
    ensures Over(text, Ended(if drop then Shorter(m) else m), Stopped(if drop then Shortened(r) else r, zero))
  {
    if drop {
      ShorterOver(text, m, r);
      EndedOver(text, Shorter(m), Shortened(r), zero);
    } else {
      EndedOver(text, m, r, zero);
    }
  }

  lemma LexFlag(text: string, p: int, lit: bool)
    requires 0 <= p <= |text|
    ensures var r := LexAt(text, p, lit);
      !r.tok.Fail? ==> r.literal == if lit then r.tok != CharcClose else r.tok == CharcOpen
  {
  }

  /** A pattern whose places are counted without overflow. */
  predicate Countable(text: string) { |text| < INT_SIZE - 1 }

  lemma LiteralAgrees(text: string, t: Track, f: Fix, p: int, c: char, next: int)
    requires Countable(text) && 0 <= p <= |text| && Agree(text, t, f, p) && !f.inClass && Live(t, f)
    requires LexAt(text, p, false) == Lexed(Literal(c), next, false)
    ensures Agree(text, TrackToken(t, Literal(c), next), FixToken(f, Literal(c)), next)
    ensures Live(TrackToken(t, Literal(c), next), FixToken(f, Literal(c)))
  {
    if f.depth == 0 && !FixToken(f, Literal(c)).held {
      LiteralSpelled(text, p, c, next);
      if f.run.cur != "" {
        SpelledOn(text, t.marks.temp0, f.run.cur, p, c, next);
        SpelledFits(text, t.marks.temp0, f.run.cur + [c], next);
      } else {
        assert f.run.cur + [c] == [c];
      }
    }
  }

  lemma OtherAgrees(text: string, t: Track, f: Fix, p: int, tok: Token, next: int)
    requires Agree(text, t, f, p) && !f.inClass && !tok.Literal?
    ensures Agree(text, TrackToken(t, tok, next), FixToken(f, tok), next)
    ensures Live(TrackToken(t, tok, next), FixToken(f, tok))
  {
    StopOver(text, t.marks, f.run, DropsLast(tok), ZeroRep(tok) && !f.held);
  }

  lemma StepAgrees(text: string, t: Track, f: Fix, p: int, tok: Token, next: int)
    requires Countable(text) && 0 <= p <= |text| && Agree(text, t, f, p)
    requires LexAt(text, p, f.inClass) == Lexed(tok, next, FixToken(f, tok).inClass)
    requires Live(t, f) || (!f.inClass && !tok.Literal?)
    ensures Agree(text, TrackToken(t, tok, next), FixToken(f, tok), next)
    ensures Live(TrackToken(t, tok, next), FixToken(f, tok))
  {
    if f.inClass {
    } else if tok.Literal? {
      LiteralAgrees(text, t, f, p, tok.c, next);
    } else {
      OtherAgrees(text, t, f, p, tok, next);
    }
  }

  /** Over a whole walk of the lexer. */
  lemma {:induction false} WalkAgrees(text: string, stops: seq<(int, bool)>, toks: seq<Token>, k: int, t: Track, f: Fix)
    requires Countable(text) && Walk(text, stops, toks) && 0 <= k <= |toks| && stops[|toks|].0 == |text|
    requires Agree(text, t, f, stops[k].0) && f.inClass == stops[k].1
    requires Live(t, f) || k == |toks| || (!f.inClass && !toks[k].Literal?)
    ensures Agree(text, TrackAll(text, stops[k].0, stops[k].1, t), FixAll(f, toks[k..]), |text|)
    decreases |toks| - k
  {
    if k < |toks| {
      assert LexedAt(text, stops, toks, k);
      var tok, next := toks[k], stops[k + 1].0;
      LexFlag(text, stops[k].0, stops[k].1);
      assert toks[k..][0] == tok && toks[k..][1..] == toks[k + 1..];
      StepAgrees(text, t, f, stops[k].0, tok, next);
      WalkAgrees(text, stops, toks, k + 1, TrackToken(t, tok, next), FixToken(f, tok));
      TrackOn(text, stops[k].0, stops[k].1, t);
    } else {
      assert toks[k..] == [];
      TrackOn(text, stops[k].0, stops[k].1, t);
    }
  }

  // ----- the leading literals -----

  /** The state after k leading literals, up to p. */
  ghost predicate Leads(text: string, f: Fix, k: int, p: int) {
    && 0 <= p <= |text| && f == NOTHING.(run := NOTHING.run.(cur := f.run.cur), newline := f.newline, held := f.held)
    && (f.newline <==> '\n' in text[..p])
    && (if f.held then |f.run.cur| >= 2 && SpelledFrom(text, 0, f.run.cur)
        else |f.run.cur| == k && Spells(text, 0, f.run.cur, p))
  }

  /** What compile_simple_backlog has in its variable fixtemp. */
  function Noticed(f: Fix): int { if f.held then |f.run.cur| - 1 else 0 }

  lemma LeadStep(text: string, f: Fix, k: int, p: int, c: char, next: int)
    requires Leads(text, f, k, p) && LexAt(text, p, false) == Lexed(Literal(c), next, false)
    requires k > 0 || (k == 0 && c != '\n')
    ensures Leads(text, FixToken(f, Literal(c)), k + 1, next)
    ensures Noticed(FixToken(f, Literal(c))) == if Noticed(f) == 0 && c == '\n' then k - 1 else Noticed(f)
  {
    LeadingChars(text, p);
    var g := FixToken(f, Literal(c));
    if !g.held {
      LiteralSpelled(text, p, c, next);
      SpellsOn(text, 0, f.run.cur, p, c, next);
    } else if !f.held {
      assert Spelled(text, 0, f.run.cur, p);
    }
  }

  /** What it will make of the literals from p to simple, with k of them behind it. */
  function BacklogFrom(text: string, simple: int, p: int, f: Fix, k: int): int
    requires 0 <= p && simple <= |text|
  {
    BacklogMark(text, simple, p, Noticed(f), p - k)
  }

  lemma BacklogStep(text: string, simple: int, p: int, c: char, next: int, f: Fix, f1: Fix, k: int)
    requires 0 <= p <= |text| && LexAt(text, p, false) == Lexed(Literal(c), next, false) && next <= simple <= |text|
    requires Noticed(f1) == if Noticed(f) == 0 && c == '\n' then k - 1 else Noticed(f)
    ensures BacklogFrom(text, simple, p, f, k) == BacklogFrom(text, simple, next, f1, k + 1)
  {
  }

  lemma BacklogEnd(text: string, f: Fix, k: int, p: int)
    requires Leads(text, f, k, p) && k >= 0
    ensures BacklogFrom(text, p, p, f, k) == |f.run.cur| - 1
  {
  }

  lemma StartLeads(text: string)
    ensures Leads(text, NOTHING, 0, 0)
  {
  }

  lemma FixOn(f: Fix, toks: seq<Token>, k: int)
    requires 0 <= k < |toks|
    ensures FixAll(f, toks[k..]) == FixAll(FixToken(f, toks[k]), toks[k + 1..])
  {
    assert toks[k..][0] == toks[k] && toks[k..][1..] == toks[k + 1..];
  }

  lemma LeadLexed(text: string, stops: seq<(int, bool)>, toks: seq<Token>, k: int, p: int, next: int, c: char)
    requires Walk(text, stops, toks) && 0 <= k < |toks| && stops[k] == (p, false) && toks[k] == Literal(c)
    requires stops[k + 1].0 == next
    ensures LexAt(text, p, false) == Lexed(Literal(c), next, false) && !stops[k + 1].1 && p < next <= |text|
    ensures LeadEnd(text, p) == LeadEnd(text, next)
  {
    assert LexedAt(text, stops, toks, k);
    LexFlag(text, p, false);
  }

  lemma {:induction false} Leading(text: string, stops: seq<(int, bool)>, toks: seq<Token>, k: int, f: Fix, p: int)
    returns (n: int, g: Fix, simple: int)
    requires Walk(text, stops, toks) && stops[|toks|].0 == |text| && 0 <= k <= |toks| && stops[k] == (p, false)
    requires Leads(text, f, k, p) && (k > 0 || toks == [] || toks[0] != Literal('\n'))
    ensures k <= n <= |toks| && stops[n] == (simple, false) && (n < |toks| ==> !toks[n].Literal?)
    ensures LeadEnd(text, p) == simple && p <= simple && Leads(text, g, n, simple)
    ensures BacklogFrom(text, simple, p, f, k) == |g.run.cur| - 1 && forall j :: k <= j < n ==> toks[j].Literal?
    ensures FixAll(g, toks[n..]) == FixAll(f, toks[k..])
    decreases |toks| - k
  {
    if k < |toks| && toks[k].Literal? {
      var c, next, f1 := toks[k].c, stops[k + 1].0, FixToken(f, toks[k]);
      LeadLexed(text, stops, toks, k, p, next, c);
      LeadStep(text, f, k, p, c, next);
      n, g, simple := Leading(text, stops, toks, k + 1, f1, next);
      BacklogStep(text, simple, p, c, next, f, f1, k);
      FixOn(f, toks, k);
    } else {
      if k < |toks| { assert LexedAt(text, stops, toks, k); }
      BacklogEnd(text, f, k, p);
      n, g, simple := k, f, p;
    }
  }

  /** With literals alone the pattern spells just them. */
  lemma {:induction false} AllSpelled(text: string, stops: seq<(int, bool)>, toks: seq<Token>, k: int)
    requires Walk(text, stops, toks) && stops[|toks|].0 == |text| && 0 <= k <= |toks| && !stops[k].1
    requires AllLiterals(toks[k..])
    ensures Spells(text, stops[k].0, Chars(toks[k..]), |text|) && LeadEnd(text, stops[k].0) == |text|
    decreases |toks| - k
  {
    if k < |toks| {
      assert LexedAt(text, stops, toks, k);
      LexFlag(text, stops[k].0, false);
      assert toks[k..][0] == toks[k] && toks[k..][1..] == toks[k + 1..];
      AllSpelled(text, stops, toks, k + 1);
      assert Chars(toks[k..])[1..] == Chars(toks[k + 1..]);
    }
  }

  /** What comes before the first newline. */
  function Before(s: string): (b: string)
    ensures |b| <= |s| && b == s[..|b|]
  {
    if s == "" || s[0] == '\n' then "" else
      assert s == [s[0]] + s[1..];
      [s[0]] + Before(s[1..])
  }

  lemma {:induction false} SpellsBefore(text: string, q: int, s: string, p: int) returns (r: int)
    requires Spells(text, q, s, p)
    ensures Spells(text, q, Before(s), r)
    decreases |s|
  {
    if Before(s) == "" {
      r := q;
    } else {
      r := SpellsBefore(text, if text[q] == '\\' then q + 2 else q + 1, s[1..], p);
      assert Before(s)[1..] == Before(s[1..]);
    }
  }

  /** How many backslashes s has. */
  function Backslashes(s: string): (n: nat)
    ensures n == 0 <==> '\\' !in s
  {
    if s == "" then 0 else
      assert s == [s[0]] + s[1..];
      (if s[0] == '\\' then 1 else 0) + Backslashes(s[1..])
  }

  lemma {:induction false} SlashesFewer(s: string)
    ensures Backslashes(s) <= |s|
    decreases |s|
  {
    if s != "" { SlashesFewer(s[1..]); }
  }

  lemma SizeOf(mark: int)
    requires -1 <= mark < UINT_SIZE - 1
    ensures FixedSize((0, Unsigned(mark))) == mark + 1
    ensures 0 <= mark < INT_SIZE ==> Copied((0, Unsigned(mark))) == mark + 1
  {
  }

  /** For literals alone each of them is counted as if it were an escape. */
  lemma {:induction false} SimpleSpelled(text: string, i: int, s: string, delimit: int)
    requires Spells(text, i, s, |text|)
    ensures SimpleMark(text, i, delimit) == i - delimit + |Before(s)| - 1 - Backslashes(Before(s))
    decreases |s|
  {
    if s != "" {
      assert s[0] != '\n' ==> Before(s)[1..] == Before(s[1..]);
      if text[i] == '\\' {
        assert s[0] == '\n' ==> SimpleMark(text, i + 1, delimit + 1) == i - 1 - delimit;
        SimpleSpelled(text, i + 2, s[1..], if s[0] == '\\' then delimit + 2 else delimit + 1);
      } else {
        SimpleSpelled(text, i + 1, s[1..], delimit);
      }
    }
  }

  /** The run the tracker ends up with, as text. */
  function Best(toks: seq<Token>): string {
    var f := FixAll(NOTHING, toks);
    if AllLiterals(toks) then Before(Chars(toks)) else if f.alt then "" else Stopped(f.run, false).best
  }

  /** It ends at a literal that a range may leave out. */
  predicate BestLoose(toks: seq<Token>) {
    !AllLiterals(toks) && Stopped(FixAll(NOTHING, toks).run, false).loose
  }

  /** Places are recorded. */
  predicate Any(at: (int, int)) { FixedSize(at) > 1 }

  /** The text that the recorded places stand for. */
  function Recorded(text: string, at: (int, int)): string {
    Collect(text, Signed(at.0), Copied(at))
  }

  /** If places are recorded, they stand for the run s, unless a backslash is spelled in it; and
      without one they are recorded for any run of two characters or more. */
  ghost predicate Placed(text: string, at: (int, int), s: string) {
    && (Any(at) ==> |s| >= 2 && (Recorded(text, at) == s <==> '\\' !in s))
    && 0 <= at.0 && (Any(at) ==> at.0 <= |text| && Copied(at) == FixedSize(at))
    && (|s| >= 2 && '\\' !in s ==> Any(at) && CanGo(text, at.0, FixedSize(at)))
  }

  /** As many places are recorded as the run has characters, and the run is spelled there. */
  ghost predicate Counted(text: string, at: (int, int), s: string) {
    if |s| >= 2 then FixedSize(at) == |s| && SpelledFrom(text, at.0, s) else at == (0, 0)
  }

  lemma SpelledPlaced(text: string, i: int, s: string)
    requires Countable(text) && |s| >= 2 && SpelledFrom(text, i, s)
    ensures Placed(text, (i, i + |s| - 1), s) && Counted(text, (i, i + |s| - 1), s)
  {
    var p :| Spelled(text, i, s, p);
    SpelledFits(text, i, s, p);
    if '\\' !in s { CollectSpelled(text, i, s, p); }
    CollectDrops(text, i, |s|);
  }

  lemma SimplePlaced(text: string, s: string)
    requires Countable(text) && Spells(text, 0, s, |text|)
    ensures Placed(text, (0, Unsigned(SimpleMark(text, 0, 0))), Before(s))
  {
    var b := Before(s);
    SimpleSpelled(text, 0, s, 0);
    SpellsFits(text, 0, s, |text|);
    SlashesFewer(b);
    SizeOf(SimpleMark(text, 0, 0));
    if |b| >= 2 && '\\' !in b {
      var r := SpellsBefore(text, 0, s, |text|);
      assert Spelled(text, 0, b, r);
      SpelledPlaced(text, 0, b);
    }
    CollectDrops(text, 0, SimpleMark(text, 0, 0) + 1);
  }

  /** The places recorded when all tokens are read. */
  function Final(t: Track): (int, int) {
    if t.altSeen then (0, 0) else (Ended(t.marks).fix0, Ended(t.marks).fixn)
  }

  lemma FinalPlaced(text: string, t: Track, f: Fix)
    requires Countable(text) && Agree(text, t, f, |text|)
    ensures var best := if f.alt then "" else Stopped(f.run, false).best;
      Placed(text, Final(t), best) && Counted(text, Final(t), best)
  {
    StopOver(text, t.marks, f.run, false, false);
    var best := Stopped(f.run, false).best;
    if !f.alt && best != "" { SpelledPlaced(text, Ended(t.marks).fix0, best); }
  }

  lemma AfterLeading(text: string, stops: seq<(int, bool)>, toks: seq<Token>, n: int, g: Fix, running: bool)
    requires Countable(text) && Walk(text, stops, toks) && stops[|toks|].0 == |text| && 0 <= n < |toks|
    requires !stops[n].1 && !toks[n].Literal? && LeadEnd(text, 0) == stops[n].0
    requires Leads(text, g, n, stops[n].0) && BacklogFrom(text, stops[n].0, 0, NOTHING, 0) == |g.run.cur| - 1
    requires FixAll(g, toks[n..]) == FixAll(NOTHING, toks)
    ensures Placed(text, Fixed(text, running), Best(toks)) && Counted(text, Fixed(text, running), Best(toks))
  {
    assert LexedAt(text, stops, toks, n);
    var simple := stops[n].0;
    var m := Marks(0, if simple > 0 then Unsigned(BacklogMark(text, simple, 0, 0, 0)) else 0, 0, 0, running);
    var t := Track(m, 0, false, false, '\n' in text[..simple]);
    LeadShows(text, g, n, simple, m);
    WalkAgrees(text, stops, toks, n, t, g);
    var t1, f := TrackAll(text, simple, false, t), FixAll(NOTHING, toks);
    assert simple < |text| && LeadEnd(text, 0) == simple && t1 == TrackAll(text, simple, false, t);
    assert Fixed(text, running) == Final(t1);
    assert Best(toks) == if f.alt then "" else Stopped(f.run, false).best;
    FinalPlaced(text, t1, f);
  }

  lemma LeadShows(text: string, g: Fix, n: int, simple: int, m: Marks)
    requires Countable(text) && Leads(text, g, n, simple) && BacklogMark(text, simple, 0, 0, 0) == |g.run.cur| - 1
    requires m.temp0 == m.fix0 == m.fixn == 0
    requires m.tempn == if simple > 0 then Unsigned(|g.run.cur| - 1) else 0
    ensures Shows(text, m, g, simple)
  {
    if g.run.cur != "" {
      if !g.held { assert Spelled(text, 0, g.run.cur, simple); }
      var p :| Spelled(text, 0, g.run.cur, p);
      SpelledFits(text, 0, g.run.cur, p);
    }
  }

  /** The pattern starts with a newline, and not all of it is literals: there is no place in front
      of the newline for the counter (FixedFails.NewlineWraps). */
  predicate NewlineFirst(toks: seq<Token>) { !AllLiterals(toks) && toks[0] == Literal('\n') }

  lemma LiteralsSpelled(re: Re)
    requires ReWritten(re) && AllLiterals(ReTokens(re))
    ensures Spells(PrintRe(re), 0, Chars(ReTokens(re)), |PrintRe(re)|) && LeadEnd(PrintRe(re), 0) == |PrintRe(re)|
  {
    var text, toks := PrintRe(re), ReTokens(re);
    assert forall k :: 0 <= k < |text| ==> Same(text, 0, text, k);
    LexRe(text, 0, re, |text|);
    var stops :| Walk(text, stops, toks) && stops[0] == (0, false) && stops[|toks|] == (|text|, false);
    assert toks[0..] == toks;
    AllSpelled(text, stops, toks, 0);
  }

  /** What is recorded for a sentence is the place of its longest fixed run up to the first
      newline, and what is made of it is that run exactly when no backslash is spelled in it. */
  lemma FixedIsBest(re: Re, running: bool)
    requires ReWritten(re) && Countable(PrintRe(re)) && !NewlineFirst(ReTokens(re))
    ensures Placed(PrintRe(re), Fixed(PrintRe(re), running), Best(ReTokens(re)))
    ensures !AllLiterals(ReTokens(re)) ==> Counted(PrintRe(re), Fixed(PrintRe(re), running), Best(ReTokens(re)))
  {
    var text, toks := PrintRe(re), ReTokens(re);
    if AllLiterals(toks) {
      LiteralsSpelled(re);
      SimplePlaced(text, Chars(toks));
    } else {
      assert forall k :: 0 <= k < |text| ==> Same(text, 0, text, k);
      LexRe(text, 0, re, |text|);
      var stops :| Walk(text, stops, toks) && stops[0] == (0, false) && stops[|toks|] == (|text|, false);
      assert toks[0..] == toks;
      StartLeads(text);
      var n, g, simple := Leading(text, stops, toks, 0, NOTHING, 0);
      AfterLeading(text, stops, toks, n, g, running);
    }
  }

  // ----- the fixed run over the tree -----

  lemma StopStop(r: Run)
    ensures r.cur == "" ==> Shortened(r) == r && forall zero :: Stopped(r, zero) == r
  {
  }

  /** From f to g nothing is seen but newlines. */
  predicate Through(f: Fix, g: Fix) { g == f.(newline := g.newline, held := g.newline) }

  /** An element that is no literal ends the run. */
  predicate StopsAt(f: Fix, g: Fix) {
    g == Fix(Stopped(f.run, false), f.depth, f.inClass, f.alt, false, g.newline, g.newline)
  }

  lemma {:induction false} ItemsKeep(f: Fix, items: seq<Item>)
    requires f.inClass && !f.lead && f.held == f.newline
    ensures Through(f, FixAll(f, ItemTokens(items)))
    decreases |items|
  {
    if items != [] {
      var tok := ItemToken(items[0]);
      assert ItemTokens(items)[0] == tok && ItemTokens(items)[1..] == ItemTokens(items[1..]);
      assert Through(f, FixToken(f, tok));
      ItemsKeep(FixToken(f, tok), items[1..]);
    }
  }

  lemma SetStops(f: Fix, negated: bool, items: seq<Item>)
    requires !f.inClass
    ensures StopsAt(f, FixAll(f, SetTokens(negated, items)))
  {
    var open := [CharcOpen] + if negated then [Literal('^')] else [];
    var g := Fix(Stopped(f.run, false), f.depth, true, f.alt, false, f.newline, f.newline);
    FixOne(f, CharcOpen);
    assert FixToken(f, CharcOpen) == g;
    if negated {
      FixConcat(f, [CharcOpen], [Literal('^')]);
      FixOne(g, Literal('^'));
    } else {
      assert open == [CharcOpen];
    }
    assert FixAll(f, open) == g;
    FixConcat(f, open, ItemTokens(items));
    ItemsKeep(g, items);
    var g2 := FixAll(g, ItemTokens(items));
    FixConcat(f, open + ItemTokens(items), [CharcClose]);
    FixOne(g2, CharcClose);
  }

  /** Where elements are read: outside brackets, and inside a group there is no run. */
  predicate Outside(f: Fix) {
    !f.inClass && f.depth >= 0 && (f.depth > 0 ==> f.run.cur == "" && !f.lead && f.held == f.newline)
  }

  /** What a quantifier makes of the state behind its operand. */
  function AfterQuant(f: Fix, q: Quant): Fix
    requires QuantWritten(q)
  {
    if q == Once then f
    else
      f.(run := Stopped(if Lessens(q) then Shortened(f.run) else f.run, FromZero(q) && !f.held),
         lead := false, held := f.newline)
  }

  /** The ranges with both counts that allow zero repetitions. */
  predicate FromZero(q: Quant)
    requires QuantWritten(q)
  {
    q.Between? && (Number(q.n) == 0 || Number(q.m) == 0)
  }

  /** The quantifiers that shorten the run. */
  predicate Lessens(q: Quant)
    requires QuantWritten(q)
  {
    q == ZeroOrMore || q == ZeroOrOne || q.AtMost? || (q.AtLeast? && Number(q.n) == 0)
  }

  lemma CountsDrop(q: Quant)
    requires QuantWritten(q) && (q.Exactly? || q.AtLeast? || q.AtMost? || q.Between?)
    ensures Drops(QuantCounts(q)) <==> Lessens(q)
    ensures ZeroRange(QuantCounts(q)) <==> FromZero(q)
  {
  }

  lemma RepDrops(s: string, counts: (int, int))
    requires RepText(s) && RepCounts(s) == counts
    ensures DropsLast(Rep(s)) <==> Drops(counts)
    ensures ZeroRep(Rep(s)) <==> ZeroRange(counts)
  {
  }

  lemma QuantDrops(q: Quant)
    requires QuantWritten(q) && q != Once
    ensures |QuantTokens(q)| == 1 && IsOp(QuantTokens(q)[0]) && QuantTokens(q)[0] != Alt
    ensures DropsLast(QuantTokens(q)[0]) <==> Lessens(q)
    ensures ZeroRep(QuantTokens(q)[0]) <==> FromZero(q)
  {
    if q.Exactly? || q.AtLeast? || q.AtMost? || q.Between? {
      WrittenCounts(q);
      CountsDrop(q);
      RepDrops(PrintCounts(q), QuantCounts(q));
    }
  }

  lemma QuantFix(f: Fix, q: Quant)
    requires QuantWritten(q) && !f.inClass
    ensures FixAll(f, QuantTokens(q)) == AfterQuant(f, q)
  {
    if q != Once {
      QuantDrops(q);
      FixOne(f, QuantTokens(q)[0]);
    }
  }

  lemma {:induction false} GroupFix(f: Fix, re: Re)
    requires ReWritten(re) && Outside(f)
    ensures StopsAt(f, FixAll(f, [LParen] + ReTokens(re) + [RParen]))
    decreases re, 1
  {
    var g := Fix(Stopped(f.run, false), f.depth + 1, false, f.alt, false, f.newline, f.newline);
    FixOne(f, LParen);
    assert FixToken(f, LParen) == g;
    FixConcat(f, [LParen], ReTokens(re));
    InnerRe(g, re);
    var g2 := FixAll(g, ReTokens(re));
    FixConcat(f, [LParen] + ReTokens(re), [RParen]);
    FixOne(g2, RParen);
    ParenCloses(g2);
  }

  lemma ParenCloses(g: Fix)
    requires !g.inClass && g.run.cur == "" && !g.lead && g.held == g.newline
    ensures FixToken(g, RParen) == g.(depth := g.depth - 1)
  {
  }

  lemma {:induction false} ElemFix(f: Fix, e: Elem)
    requires ElemWritten(e) && Outside(f)
    ensures var g := FixAll(f, ElemTokens(e)); if e.Lit? then g == FixToken(f, Literal(e.ch.c)) else StopsAt(f, g)
    decreases e, 0
  {
    match e
    case Group(re) => GroupFix(f, re);
    case AnyChar => FixOne(f, AnyTok);
    case LineStart => FixOne(f, Sol);
    case LineEnd => FixOne(f, Eol);
    case Lit(ch) => FixOne(f, Literal(ch.c));
    case Set(negated, items) => SetStops(f, negated, items);
  }

  lemma BasicFix(f: Fix, b: Basic)
    requires BasicWritten(b) && Outside(f)
    ensures var g := FixAll(f, ElemTokens(b.elem));
      && (if b.elem.Lit? then g == FixToken(f, Literal(b.elem.ch.c)) else StopsAt(f, g))
      && FixAll(f, BasicTokens(b)) == AfterQuant(g, b.quant)
    decreases b, 0
  {
    ElemFix(f, b.elem);
    FixConcat(f, ElemTokens(b.elem), QuantTokens(b.quant));
    QuantFix(FixAll(f, ElemTokens(b.elem)), b.quant);
  }

  /** Inside a group nothing changes. */
  lemma InnerBasic(f: Fix, b: Basic, g: Fix)
    requires QuantWritten(b.quant) && Outside(f) && f.depth > 0
    requires if b.elem.Lit? then g == FixToken(f, Literal(b.elem.ch.c)) else StopsAt(f, g)
    ensures Through(f, AfterQuant(g, b.quant))
  {
    StopStop(f.run);
  }

  lemma {:induction false} InnerCat(f: Fix, c: Cat)
    requires CatWritten(c) && Outside(f) && f.depth > 0
    ensures Through(f, FixAll(f, CatTokens(c)))
    decreases c, 0
  {
    if c.Then? {
      InnerCat(f, c.init);
      var g := FixAll(f, CatTokens(c.init));
      FixConcat(f, CatTokens(c.init), BasicTokens(c.last));
      BasicFix(g, c.last);
      InnerBasic(g, c.last, FixAll(g, ElemTokens(c.last.elem)));
    }
  }

  lemma InnerAlt(f: Fix)
    requires Outside(f) && f.depth > 0
    ensures FixToken(f, Alt) == f
  {
  }

  lemma {:induction false} InnerRe(f: Fix, re: Re)
    requires ReWritten(re) && Outside(f) && f.depth > 0
    ensures Through(f, FixAll(f, ReTokens(re)))
    decreases re, 0
  {
    match re
    case Simple(c) => InnerCat(f, c);
    case Union(l, r) =>
      InnerRe(f, l);
      var g := FixAll(f, ReTokens(l));
      FixConcat(f, ReTokens(l), [Alt]);
      FixOne(g, Alt);
      InnerAlt(g);
      FixConcat(f, ReTokens(l) + [Alt], CatTokens(r));
      InnerCat(g, r);
  }

  predicate Beside(f: Fix, g: Fix) { g.depth == f.depth && g.inClass == f.inClass && g.alt == f.alt }

  lemma TopQuant(f: Fix, q: Quant)
    requires QuantWritten(q)
    ensures Beside(f, AfterQuant(f, q))
  {
  }

  lemma TopBasic(f: Fix, b: Basic, g: Fix)
    requires QuantWritten(b.quant) && Outside(f) && f.depth == 0
    requires if b.elem.Lit? then g == FixToken(f, Literal(b.elem.ch.c)) else StopsAt(f, g)
    ensures Beside(f, AfterQuant(g, b.quant))
  {
    TopQuant(g, b.quant);
  }

  lemma {:induction false} StaysSettled(f: Fix, toks: seq<Token>)
    requires Settled(f)
    ensures Settled(FixAll(f, toks))
    decreases |toks|
  {
    if toks != [] {
      StaysSettled(FixToken(f, toks[0]), toks[1..]);
    }
  }

  /** Outside groups the depth stays, and bars are noted. */
  lemma {:induction false} TopCat(f: Fix, c: Cat)
    requires CatWritten(c) && Outside(f) && f.depth == 0
    ensures var g := FixAll(f, CatTokens(c)); g.depth == 0 && !g.inClass && g.alt == f.alt
    decreases c
  {
    if c.Then? {
      var g := FixAll(f, CatTokens(c.init));
      TopCat(f, c.init);
      FixConcat(f, CatTokens(c.init), BasicTokens(c.last));
      BasicFix(g, c.last);
      TopBasic(g, c.last, FixAll(g, ElemTokens(c.last.elem)));
    }
  }

  lemma {:induction false} TopRe(f: Fix, re: Re)
    requires ReWritten(re) && Outside(f) && f.depth == 0
    ensures var g := FixAll(f, ReTokens(re)); g.depth == 0 && !g.inClass && g.alt == (f.alt || re.Union?)
    decreases re
  {
    match re
    case Simple(c) => TopCat(f, c);
    case Union(l, r) =>
      TopRe(f, l);
      FixConcat(f, ReTokens(l), [Alt]);
      var g := FixAll(f, ReTokens(l));
      FixOne(g, Alt);
      FixConcat(f, ReTokens(l) + [Alt], CatTokens(r));
      TopCat(FixToken(g, Alt), r);
  }

  // ----- every match contains it -----

  ghost predicate FoundAt(env: Env, s: string, h: int) { TextAt(env, s, h, h + |s|) }

  ghost predicate Contains(env: Env, s: string, i: int, j: int) {
    exists h :: FoundAt(env, s, h) && i <= h && h + |s| <= j
  }

  ghost predicate EndsWith(env: Env, s: string, i: int, j: int) {
    i <= j - |s| && FoundAt(env, s, j - |s|)
  }

  /** Matches do not go back or leave the text. */
  lemma {:induction false} ElemForward(e: Elem, env: Env, i: int, j: int)
    requires ElemWritten(e) && MatchElem(e, env, i, j) && 0 <= i <= |env.text|
    ensures i <= j <= |env.text|
    decreases e, 0, 0
  {
    if e.Group? { ReForward(e.re, env, i, j); }
  }

  lemma {:induction false} IterateForward(e: Elem, env: Env, k: nat, i: int, j: int)
    requires ElemWritten(e) && Iterate(e, env, k, i, j) && 0 <= i <= |env.text|
    ensures i <= j <= |env.text|
    decreases e, 1, k
  {
    if k > 0 {
      var m :| MatchElem(e, env, i, m) && Iterate(e, env, k - 1, m, j);
      ElemForward(e, env, i, m);
      IterateForward(e, env, k - 1, m, j);
    }
  }

  lemma {:induction false} BasicForward(b: Basic, env: Env, i: int, j: int)
    requires BasicWritten(b) && MatchBasic(b, env, i, j) && 0 <= i <= |env.text|
    ensures i <= j <= |env.text|
    decreases b, 0, 0
  {
    var k: nat :| Allows(b.quant, k) && Iterate(b.elem, env, k, i, j);
    IterateForward(b.elem, env, k, i, j);
  }

  lemma {:induction false} CatForward(c: Cat, env: Env, i: int, j: int)
    requires CatWritten(c) && MatchCat(c, env, i, j) && 0 <= i <= |env.text|
    ensures i <= j <= |env.text|
    decreases c, 0, 0
  {
    if c.Then? {
      var m :| MatchCat(c.init, env, i, m) && MatchBasic(c.last, env, m, j);
      CatForward(c.init, env, i, m);
      BasicForward(c.last, env, m, j);
    }
  }

  lemma {:induction false} ReForward(re: Re, env: Env, i: int, j: int)
    requires ReWritten(re) && MatchRe(re, env, i, j) && 0 <= i <= |env.text|
    ensures i <= j <= |env.text|
    decreases re, 0, 0
  {
    match re
    case Simple(c) => CatForward(c, env, i, j);
    case Union(l, r) => if MatchRe(l, env, i, j) { ReForward(l, env, i, j); } else { CatForward(r, env, i, j); }
  }

  lemma IterateFirst(e: Elem, env: Env, k: nat, i: int, j: int) returns (m: int)
    requires ElemWritten(e) && Iterate(e, env, k, i, j) && k > 0
    ensures MatchElem(e, env, i, m) && Iterate(e, env, k - 1, m, j)
  {
    m :| MatchElem(e, env, i, m) && Iterate(e, env, k - 1, m, j);
  }

  /** A literal that may not be left out, directly after what has been matched. */
  lemma FirstLiteral(b: Basic, env: Env, i: int, j: int)
    requires BasicWritten(b) && b.elem.Lit? && BasicCounts(b) && MatchBasic(b, env, i, j) && 0 <= i <= |env.text|
    requires b.quant == Once || (!Lessens(b.quant) && !FromZero(b.quant))
    ensures i < j <= |env.text| && CharEq(env.icase, env.text[i], b.elem.ch.c) && (b.quant == Once ==> j == i + 1)
  {
    var k: nat :| Allows(b.quant, k) && Iterate(b.elem, env, k, i, j);
    assert k > 0;
    var m := IterateFirst(b.elem, env, k, i, j);
    IterateForward(b.elem, env, k - 1, m, j);
  }

  /** A suffix and one character more. */
  lemma EndsWithMore(env: Env, s: string, i: int, m: int, c: char)
    requires EndsWith(env, s, i, m) && 0 <= m < |env.text| && CharEq(env.icase, env.text[m], c)
    ensures EndsWith(env, s + [c], i, m + 1)
  {
    var h, t := m - |s|, s + [c];
    forall k | 0 <= k < |t| ensures CharEq(env.icase, env.text[h + k], t[k]) {
      if k < |s| { assert t[k] == s[k]; }
    }
  }

  /** The longest run is in [i, j), unless it is loose. */
  ghost predicate Held(env: Env, r: Run, i: int, j: int) { r.loose || Contains(env, r.best, i, j) }

  /** The run at hand ends it; one that is held is somewhere in it. */
  ghost predicate Trails(env: Env, f: Fix, i: int, j: int) {
    if f.held then Contains(env, f.run.cur, i, j) else EndsWith(env, f.run.cur, i, j)
  }

  lemma TrailsIn(env: Env, f: Fix, i: int, m: int, j: int)
    requires Trails(env, f, i, m) && 0 <= i <= m <= j <= |env.text|
    ensures Contains(env, f.run.cur, i, j)
  {
    if !f.held { assert FoundAt(env, f.run.cur, m - |f.run.cur|); }
  }

  lemma ContainsLess(env: Env, s: string, n: int, i: int, j: int)
    requires Contains(env, s, i, j) && 0 <= n <= |s|
    ensures Contains(env, s[..n], i, j)
  {
    var h :| FoundAt(env, s, h) && i <= h && h + |s| <= j;
    assert FoundAt(env, s[..n], h);
  }

  /** The run ends: it is where it was matched, or it is loose, or it is too short to count. */
  lemma StoppedHolds(env: Env, r: Run, zero: bool, i: int, j: int)
    requires Held(env, r, i, j) && (|r.cur| >= 2 ==> zero || Contains(env, r.cur, i, j)) && 0 <= i <= j <= |env.text|
    ensures Held(env, Stopped(r, zero), i, j)
  {
    assert FoundAt(env, "", i);
  }

  lemma EmptyTrails(env: Env, f: Fix, i: int, j: int)
    requires f.run.cur == "" && 0 <= i <= j <= |env.text|
    ensures Trails(env, f, i, j)
  {
    assert FoundAt(env, "", i) && FoundAt(env, "", j);
  }

  /** f1 has one character more, or none, because the run is held. */
  predicate Grown(f: Fix, f1: Fix, c: char) {
    && f1.run.best == f.run.best && f1.run.loose == f.run.loose
    && if f1.held then f1.run.cur == f.run.cur else !f.held && f1.run.cur == f.run.cur + [c]
  }

  lemma LiteralGrows(f: Fix, c: char)
    requires !f.inClass && f.depth == 0 && Settled(f)
    ensures Grown(f, FixToken(f, Literal(c)), c)
  {
  }

  /** A quantifier behind a run that is held. */
  lemma HeldHolds(r: Run, lessens: bool, env: Env, i: int, j: int)
    requires Held(env, r, i, j) && Contains(env, r.cur, i, j) && 0 <= i <= j <= |env.text|
    ensures Held(env, Stopped(if lessens then Shortened(r) else r, false), i, j)
  {
    if |r.cur| >= 2 { ContainsLess(env, r.cur, |r.cur| - 1, i, j); }
    StoppedHolds(env, if lessens then Shortened(r) else r, false, i, j);
  }

  /** A literal that may be left out: the run ends before it. */
  lemma LessenedHolds(cur: string, r: Run, c: char, zero: bool, env: Env, i: int, j: int)
    requires r.cur == cur + [c] && Held(env, r, i, j) && Contains(env, cur, i, j) && 0 <= i <= j <= |env.text|
    ensures Held(env, Stopped(Shortened(r), zero), i, j)
  {
    assert |Shortened(r).cur| >= 2 ==> Shortened(r).cur == cur;
    StoppedHolds(env, Shortened(r), zero, i, j);
  }

  /** A literal that has to be there, at least once. */
  lemma KeptHolds(cur: string, r: Run, b: Basic, env: Env, i: int, m: int, j: int)
    requires BasicWritten(b) && BasicCounts(b) && MatchBasic(b, env, m, j) && b.elem.Lit?
    requires b.quant == Once || (!Lessens(b.quant) && !FromZero(b.quant))
    requires r.cur == cur + [b.elem.ch.c] && Held(env, r, i, j) && EndsWith(env, cur, i, m)
    requires 0 <= i <= m <= j <= |env.text|
    ensures b.quant == Once ==> EndsWith(env, r.cur, i, j)
    ensures Held(env, Stopped(r, false), i, j)
  {
    FirstLiteral(b, env, m, j);
    EndsWithMore(env, cur, i, m, b.elem.ch.c);
    assert FoundAt(env, r.cur, m + 1 - |r.cur|);
    StoppedHolds(env, r, false, i, j);
  }

  lemma LiteralHolds(f: Fix, f1: Fix, b: Basic, env: Env, i: int, m: int, j: int)
    requires BasicWritten(b) && BasicCounts(b) && MatchBasic(b, env, m, j) && b.elem.Lit? && Grown(f, f1, b.elem.ch.c)
    requires Held(env, f.run, i, m) && Trails(env, f, i, m) && 0 <= i <= m <= |env.text|
    ensures var g := AfterQuant(f1, b.quant); Held(env, g.run, i, j) && Trails(env, g, i, j)
  {
    var q, g := b.quant, AfterQuant(f1, b.quant);
    BasicForward(b, env, m, j);
    TrailsIn(env, f, i, m, j);
    assert Held(env, f1.run, i, j);
    if q != Once { EmptyTrails(env, g, i, j); }
    if f1.held {
      HeldHolds(f1.run, q != Once && Lessens(q), env, i, j);
    } else if q != Once && Lessens(q) {
      LessenedHolds(f.run.cur, f1.run, b.elem.ch.c, FromZero(q), env, i, j);
    } else if q != Once && FromZero(q) {
      StoppedHolds(env, f1.run, true, i, j);
    } else {
      KeptHolds(f.run.cur, f1.run, b, env, i, m, j);
    }
  }

  lemma OtherHolds(f: Fix, f1: Fix, b: Basic, env: Env, i: int, m: int, j: int)
    requires BasicWritten(b) && MatchBasic(b, env, m, j) && StopsAt(f, f1) && 0 <= i <= m <= |env.text|
    requires Held(env, f.run, i, m) && Trails(env, f, i, m)
    ensures var g := AfterQuant(f1, b.quant); Held(env, g.run, i, j) && Trails(env, g, i, j)
  {
    BasicForward(b, env, m, j);
    TrailsIn(env, f, i, m, j);
    StoppedHolds(env, f.run, false, i, j);
    StopStop(f1.run);
    EmptyTrails(env, AfterQuant(f1, b.quant), i, j);
  }

  /** After any stretch of the pattern: the longest run lies in every match of the stretch,
      unless it is loose, and the run at hand ends it. */
  lemma {:induction false} CatHolds(c: Cat, env: Env, i: int, j: int)
    requires CatWritten(c) && CatCounts(c) && MatchCat(c, env, i, j) && 0 <= i <= |env.text|
    ensures var f := FixAll(NOTHING, CatTokens(c)); Held(env, f.run, i, j) && Trails(env, f, i, j)
    decreases c
  {
    match c
    case Empty => assert FoundAt(env, "", i);
    case Then(init, last) =>
      var m :| MatchCat(init, env, i, m) && MatchBasic(last, env, m, j);
      CatForward(init, env, i, m);
      CatHolds(init, env, i, m);
      TopCat(NOTHING, init);
      StaysSettled(NOTHING, CatTokens(init));
      var f := FixAll(NOTHING, CatTokens(init));
      FixConcat(NOTHING, CatTokens(init), BasicTokens(last));
      BasicFix(f, last);
      var f1 := FixAll(f, ElemTokens(last.elem));
      if last.elem.Lit? {
        LiteralGrows(f, last.elem.ch.c);
        LiteralHolds(f, f1, last, env, i, m, j);
      } else {
        OtherHolds(f, f1, last, env, i, m, j);
      }
  }

  /** What comes before the first newline of a match of literals. */
  lemma LiteralsHold(c: Cat, env: Env, i: int, j: int)
    requires CatWritten(c) && AllLiterals(CatTokens(c)) && MatchCat(c, env, i, j) && 0 <= i <= |env.text|
    ensures Contains(env, Before(Chars(CatTokens(c))), i, j)
  {
    LiteralsMatch(c, env, i, j);
    var u := Chars(CatTokens(c));
    assert FoundAt(env, u, i);
    ContainsLess(env, u, |Before(u)|, i, j);
  }

  /** The longest run of a sentence is in every match, unless it is loose. */
  lemma BestHolds(re: Re, env: Env, i: int, j: int)
    requires ReWritten(re) && ReCounts(re) && !BestLoose(ReTokens(re))
    requires MatchRe(re, env, i, j) && 0 <= i <= |env.text|
    ensures Contains(env, Best(ReTokens(re)), i, j)
  {
    ReForward(re, env, i, j);
    TopRe(NOTHING, re);
    var f := FixAll(NOTHING, ReTokens(re));
    if re.Union? {
      UnionNotLiteral(re.left, re.right);
      assert FoundAt(env, "", i);
    } else if AllLiterals(CatTokens(re.body)) {
      LiteralsHold(re.body, env, i, j);
    } else {
      CatHolds(re.body, env, i, j);
      TrailsIn(env, f, i, j, j);
      StoppedHolds(env, f.run, false, i, j);
    }
  }

  /** If places in the pattern are recorded, what they stand for is in [i, j). */
  ghost predicate Necessary(pattern: string, at: (int, int), env: Env, i: int, j: int) {
    Any(at) ==> 0 <= at.0 && CanGo(pattern, at.0, FixedSize(at)) && Contains(env, Recorded(pattern, at), i, j)
  }

  lemma PlacedNecessary(pattern: string, at: (int, int), s: string, env: Env, i: int, j: int)
    requires Placed(pattern, at, s) && '\\' !in s && Contains(env, s, i, j)
    ensures Necessary(pattern, at, env, i, j)
  {
  }

  /** The text recorded for a sentence is in every match, if no backslash is
      spelled in the longest run and the run does not end at a literal with a range from zero. */
  lemma FixedNecessary(re: Re, running: bool, env: Env, i: int, j: int)
    requires ReWritten(re) && ReCounts(re) && Countable(PrintRe(re)) && !NewlineFirst(ReTokens(re))
    requires '\\' !in Best(ReTokens(re)) && !BestLoose(ReTokens(re))
    requires MatchRe(re, env, i, j) && 0 <= i <= |env.text|
    ensures Necessary(PrintRe(re), Fixed(PrintRe(re), running), env, i, j)
  {
    FixedIsBest(re, running);
    BestHolds(re, env, i, j);
    PlacedNecessary(PrintRe(re), Fixed(PrintRe(re), running), Best(ReTokens(re)), env, i, j);
  }

  /** So an input that rxvm_match accepts contains the recorded text. */
  lemma FixedInInput(re: Re, running: bool, input: string, icase: bool)
    requires ReWritten(re) && ReCounts(re) && Countable(PrintRe(re)) && !NewlineFirst(ReTokens(re))
    requires '\\' !in Best(ReTokens(re)) && !BestLoose(ReTokens(re))
    ensures Built(PrintRe(re)).Ok?
    ensures Matches(Built(PrintRe(re)).value, input, icase) ==>
      Necessary(PrintRe(re), Fixed(PrintRe(re), running), Env(input, icase, true), 0, |input|)
  {
    EndToEnd(re);
    if Matches(Built(PrintRe(re)).value, input, icase) {
      FixedNecessary(re, running, Env(input, icase, true), 0, |input|);
    }
  }
}
