/** The fixed substring is the longest there is, and of several equally long ones the first: stated
    of the tokens of the pattern, whatever way the tracker finds it. */
module FixedLongest {
  import opened Regex
  import opened Lexer
  import opened Sentences
  import opened Context
  import opened Compilation
  import opened Lfix
  import opened Rxvm
  import opened FixedText
  import opened FixedFails

  // ----- stretches of literals -----

  /** How deep in groups, and whether between brackets. */
  datatype Level = Level(depth: int, inClass: bool)

  const TOP := Level(0, false)

  function LevelAfter(l: Level, toks: seq<Token>): Level
    decreases |toks|
  {
    if toks == [] then l else LevelAfter(LevelNext(l, toks[0]), toks[1..])
  }

  function LevelNext(l: Level, tok: Token): Level {
    if l.inClass then l.(inClass := tok != CharcClose)
    else if tok == LParen then l.(depth := l.depth + 1)
    else if tok == RParen then l.(depth := l.depth - 1)
    else l.(inClass := tok == CharcOpen)
  }

  /** Behind a literal this token says that it may be left out: *, ?, {,m} or {0,}. */
  predicate LeavesOut(tok: Token) {
    || tok == Zero || tok == OneZero
    || (tok.Rep? && tok.counts != "" && tok.counts[0] == ',')
    || (tok.Rep? && tok.counts != "" && AllZero(tok.counts[..|tok.counts| - 1]) && tok.counts[|tok.counts| - 1] == ',')
  }

  predicate NoNewline(toks: seq<Token>) {
    forall k :: 0 <= k < |toks| ==> !SeesNewline(toks[k])
  }

  /** What may follow a stretch of literals without taking its last one away. Behind a newline the
      stretch is still the one that the next operator takes from. */
  predicate Leaves(b: seq<Token>) {
    || b == []
    || (if b[0] == Literal('\n') then AllLiterals(b) || !LeavesOut(Other(b)) else !LeavesOut(b[0]))
  }

  /** l is a stretch of two literals or more, outside groups and brackets and in front of any newline. */
  ghost predicate Stretch(toks: seq<Token>, a: seq<Token>, l: seq<Token>, b: seq<Token>) {
    && toks == a + l + b && |l| >= 2 && AllLiterals(l) && LevelAfter(TOP, a) == TOP && NoNewline(a + l) && Leaves(b)
  }

  /** From token i on there are literals that spell s, outside groups and brackets. */
  predicate StandsIn(toks: seq<Token>, s: string, i: int) {
    && 0 <= i && i + |s| <= |toks| && LevelAfter(TOP, toks[..i]) == TOP
    && forall k :: 0 <= k < |s| ==> toks[i + k] == Literal(s[k])
  }

  // ----- one token more -----

  lemma {:induction false} LevelOf(f: Fix, toks: seq<Token>)
    ensures var g := FixAll(f, toks); Level(g.depth, g.inClass) == LevelAfter(Level(f.depth, f.inClass), toks)
    decreases |toks|
  {
    if toks != [] {
      LevelOf(FixToken(f, toks[0]), toks[1..]);
    }
  }

  lemma {:induction false} NoneSeen(f: Fix, toks: seq<Token>)
    requires !f.newline && !f.held && NoNewline(toks)
    ensures !FixAll(f, toks).newline && !FixAll(f, toks).held
    decreases |toks|
  {
    if toks != [] {
      assert !SeesNewline(toks[0]);
      NoneSeen(FixToken(f, toks[0]), toks[1..]);
    }
  }

  lemma DropsLeavesOut(tok: Token)
    requires DropsLast(tok)
    ensures LeavesOut(tok)
  {
    if tok.Rep? {
      var s := tok.counts;
      var k := CommaAt(s);
      if k < |s| {
        var right := s[k + 1..];
        assert forall j :: 0 <= j < |right| ==> right[j] == s[k + 1 + j];
        if k > 0 {
          ZeroNumber(s[..k]);
          assert right == "" && k == |s| - 1;
        }
      }
    }
  }

  // ----- it is at least as long as any stretch -----

  function Final(r: Run): string { Stopped(r, false).best }

  lemma {:induction false} BestGrows(f: Fix, toks: seq<Token>)
    ensures var g := FixAll(f, toks); g.run.best == f.run.best || |g.run.best| > |f.run.best|
    decreases |toks|
  {
    if toks != [] { BestGrows(FixToken(f, toks[0]), toks[1..]); }
  }

  lemma FinalGrows(f: Fix, toks: seq<Token>)
    ensures Final(FixAll(f, toks).run) == f.run.best || |Final(FixAll(f, toks).run)| > |f.run.best|
  {
    BestGrows(f, toks);
  }

  /** Of a final run of n characters, when n or more were at hand. */
  predicate Settles(f: Fix, n: int, last: string)
    requires 0 <= n <= |f.run.cur|
  {
    |last| >= n && (|last| == n ==> last == if |f.run.best| >= n then f.run.best else f.run.cur[..n])
  }

  lemma StopKeeps(r: Run, kept: Run, zero: bool, n: int)
    requires n >= 2 && |r.cur| > n && (kept == r || kept == Shortened(r))
    ensures var best := Stopped(kept, zero).best;
      |best| >= n && (|best| == n ==> best == if |r.best| >= n then r.best else r.cur[..n])
  {
  }

  /** With one more character at hand than n, the last one may go. */
  lemma {:induction false} SlackSettles(f: Fix, b: seq<Token>, n: int)
    requires n >= 2 && |f.run.cur| > n && !f.inClass
    ensures Settles(f, n, Final(FixAll(f, b).run))
    decreases |b|
  {
    if b != [] {
      var g := FixToken(f, b[0]);
      if b[0].Literal? {
        SlackSettles(g, b[1..], n);
      } else {
        StopKeeps(f.run, if DropsLast(b[0]) then Shortened(f.run) else f.run, ZeroRep(b[0]) && !f.held, n);
        FinalGrows(g, b[1..]);
      }
    }
  }

  /** Behind a newline the run stays as it is up to the next operator. */
  lemma {:induction false} HeldSettles(f: Fix, b: seq<Token>, n: int)
    requires n >= 2 && |f.run.cur| == n && !f.inClass && f.held && (f.lead || f.newline)
    requires AllLiterals(b) || !LeavesOut(Other(b))
    ensures Settles(f, n, Final(FixAll(f, b).run))
    decreases |b|
  {
    if b != [] {
      var g := FixToken(f, b[0]);
      if b[0].Literal? {
        assert AllLiterals(b) ==> AllLiterals(b[1..]);
        assert AllLiterals(b[1..]) ==> AllLiterals(b) by { assert b == [b[0]] + b[1..]; }
        HeldSettles(g, b[1..], n);
      } else {
        OperatorSettles(f, b, n);
      }
    }
  }

  lemma OperatorSettles(f: Fix, b: seq<Token>, n: int)
    requires n >= 2 && |f.run.cur| == n && !f.inClass && b != [] && !b[0].Literal? && !LeavesOut(b[0])
    ensures Settles(f, n, Final(FixAll(f, b).run))
  {
    if DropsLast(b[0]) { DropsLeavesOut(b[0]); }
    FinalGrows(FixToken(f, b[0]), b[1..]);
  }

  lemma StretchSettles(f: Fix, b: seq<Token>, n: int)
    requires n >= 2 && |f.run.cur| == n && !f.inClass && f.depth == 0 && !f.newline && !f.held && Leaves(b)
    ensures Settles(f, n, Final(FixAll(f, b).run))
  {
    if b != [] {
      var g := FixToken(f, b[0]);
      if b[0] == Literal('\n') {
        assert AllLiterals(b) ==> AllLiterals(b[1..]);
        assert AllLiterals(b[1..]) ==> AllLiterals(b) by { assert b == [b[0]] + b[1..]; }
        HeldSettles(g, b[1..], n);
      } else if b[0].Literal? {
        SlackSettles(g, b[1..], n);
      } else {
        OperatorSettles(f, b, n);
      }
    }
  }

  lemma LiteralAdds(f: Fix, tok: Token)
    requires tok.Literal? && !SeesNewline(tok) && !f.inClass && f.depth == 0 && !f.newline && !f.held
    ensures FixToken(f, tok) == f.(run := f.run.(cur := f.run.cur + [tok.c]))
  {
  }

  lemma {:induction false} LiteralsAdd(f: Fix, l: seq<Token>)
    requires AllLiterals(l) && NoNewline(l) && !f.inClass && f.depth == 0 && !f.newline && !f.held
    ensures FixAll(f, l) == f.(run := f.run.(cur := f.run.cur + Chars(l))) && |Chars(l)| == |l|
    decreases |l|
  {
    if l == [] {
      assert f.run.cur + "" == f.run.cur;
    } else {
      var tok, rest := l[0], l[1..];
      assert !SeesNewline(tok) && AllLiterals(rest) && NoNewline(rest);
      LiteralAdds(f, tok);
      LiteralsAdd(FixToken(f, tok), rest);
      assert f.run.cur + [tok.c] + Chars(rest) == f.run.cur + ([tok.c] + Chars(rest));
    }
  }

  /** A star behind the newline takes its last character from the stretch in front: of two nothing stays. */
  lemma HeldLosesLast(a: char, b: char, c: char, toks: seq<Token>)
    requires a != '\n' && b != '\n' && toks == [Literal(a), Literal(b)] + [Literal('\n'), Literal(c), Zero]
    ensures Best(toks) == ""
  {
    var l, rest := [Literal(a), Literal(b)], [Literal('\n'), Literal(c), Zero];
    LiteralsAdd(NOTHING, l);
    FixConcat(NOTHING, l, rest);
    assert rest[1..] == [Literal(c), Zero] && rest[1..][1..] == [Zero];
    var f := FixAll(NOTHING, l);
    var g := FixToken(FixToken(f, rest[0]), rest[1]);
    assert g.run == f.run && |f.run.cur| == 2;
    FixOne(g, Zero);
    assert toks[4] == Zero;
  }

  // ----- it is such a stretch -----

  predicate StandsBy(toks: seq<Token>, s: string, i: int, k: int) { StandsIn(toks, s, i) && i + |s| <= k }

  /** Among the first k tokens. */
  ghost predicate StandsUpTo(toks: seq<Token>, s: string, k: int) {
    exists i :: StandsBy(toks, s, i, k)
  }

  /** After k tokens the longest run stands somewhere, and the run at hand right before k unless
      it is held. */
  ghost predicate Standing(toks: seq<Token>, k: int, f: Fix) {
    && (f.run.best != "" ==> exists i :: StandsBy(toks, f.run.best, i, k))
    && (f.run.cur != "" ==> exists i :: StandsBy(toks, f.run.cur, i, k) && (!f.held ==> i + |f.run.cur| == k))
    && (f.depth != 0 || f.inClass ==> f.run.cur == "") && (!f.lead ==> f.held == f.newline)
  }

  lemma StandsShorter(toks: seq<Token>, s: string, n: int, i: int, k: int)
    requires StandsBy(toks, s, i, k) && 0 <= n <= |s|
    ensures StandsBy(toks, s[..n], i, k)
  {
  }

  lemma LiteralStands(toks: seq<Token>, k: int, f: Fix)
    requires 0 <= k < |toks| && Standing(toks, k, f) && !f.inClass && toks[k].Literal?
    requires LevelAfter(TOP, toks[..k]) == Level(f.depth, f.inClass)
    ensures Standing(toks, k + 1, FixToken(f, toks[k]))
  {
    var g := FixToken(f, toks[k]);
    if f.run.best != "" {
      var i :| StandsBy(toks, f.run.best, i, k);
      assert StandsBy(toks, g.run.best, i, k + 1);
    }
    if g.run == f.run {
      if f.run.cur != "" {
        var i :| StandsBy(toks, f.run.cur, i, k) && (!f.held ==> i + |f.run.cur| == k);
        assert StandsBy(toks, g.run.cur, i, k + 1);
      }
    } else if f.run.cur == "" {
      assert StandsBy(toks, g.run.cur, k, k + 1);
    } else {
      var i :| StandsBy(toks, f.run.cur, i, k) && (!f.held ==> i + |f.run.cur| == k);
      assert StandsBy(toks, g.run.cur, i, k + 1);
    }
  }

  lemma OtherStands(toks: seq<Token>, k: int, f: Fix)
    requires 0 <= k < |toks| && Standing(toks, k, f) && (f.inClass || !toks[k].Literal?)
    ensures Standing(toks, k + 1, FixToken(f, toks[k]))
  {
    var g := FixToken(f, toks[k]);
    if f.run.best != "" {
      var i :| StandsBy(toks, f.run.best, i, k);
      assert StandsBy(toks, f.run.best, i, k + 1);
    }
    if f.run.cur != "" {
      var i :| StandsBy(toks, f.run.cur, i, k) && (!f.held ==> i + |f.run.cur| == k);
      assert StandsBy(toks, f.run.cur, i, k + 1);
      StandsShorter(toks, f.run.cur, |f.run.cur| - 1, i, k + 1);
    }
  }

  lemma {:induction false} PrefixStands(toks: seq<Token>, k: int)
    requires 0 <= k <= |toks|
    ensures Standing(toks, k, FixAll(NOTHING, toks[..k]))
    decreases k
  {
    if k > 0 {
      var n := k - 1;
      var f := FixAll(NOTHING, toks[..n]);
      PrefixStands(toks, n);
      LevelOf(NOTHING, toks[..n]);
      assert toks[..k] == toks[..n] + [toks[n]];
      FixConcat(NOTHING, toks[..n], [toks[n]]);
      FixOne(f, toks[n]);
      if !f.inClass && toks[n].Literal? { LiteralStands(toks, n, f); } else { OtherStands(toks, n, f); }
    }
  }

  lemma FinalStands(toks: seq<Token>, k: int, f: Fix)
    requires Standing(toks, k, f) && Final(f.run) != ""
    ensures exists i :: StandsBy(toks, Final(f.run), i, k)
  {
  }

  // ----- the first of the longest -----

  /** A run as long as the final one is the final one, or comes behind it. */
  lemma FirstStands(toks: seq<Token>, a: seq<Token>, l: seq<Token>, b: seq<Token>, last: string)
    requires Stretch(toks, a, l, b) && last == Final(FixAll(NOTHING, toks).run)
    ensures |last| >= |l|
    ensures |last| == |l| ==> StandsUpTo(toks, last, |a| + |l|)
  {
    var k, f0 := |a| + |l|, FixAll(NOTHING, a);
    assert NoNewline(a) by { forall j | 0 <= j < |a| ensures !SeesNewline(a[j]) { assert (a + l)[j] == a[j]; } }
    assert NoNewline(l) by { forall j | 0 <= j < |l| ensures !SeesNewline(l[j]) { assert (a + l)[|a| + j] == l[j]; } }
    LevelOf(NOTHING, a);
    NoneSeen(NOTHING, a);
    LiteralsAdd(f0, l);
    FixConcat(NOTHING, a, l);
    FixConcat(NOTHING, a + l, b);
    var f := FixAll(NOTHING, a + l);
    StretchSettles(f, b, |f.run.cur|);
    PrefixStands(toks, k);
    assert toks[..k] == a + l;
    if |last| == |l| {
      assert f.run.cur[..|f.run.cur|] == f.run.cur;
    }
  }

  // ----- of sentences -----

  /** If there is a stretch of literals, outside groups and brackets and in front of any newline, at
      least as many characters are recorded; and if just as many, then for this stretch or for
      one in front of it. */
  lemma LongestRecorded(re: Re, running: bool, a: seq<Token>, l: seq<Token>, b: seq<Token>)
    requires ReWritten(re) && Countable(PrintRe(re)) && re.Simple?
    requires !AllLiterals(ReTokens(re)) && !NewlineFirst(ReTokens(re)) && Stretch(ReTokens(re), a, l, b)
    ensures FixedSize(Fixed(PrintRe(re), running)) >= |l|
    ensures FixedSize(Fixed(PrintRe(re), running)) == |l| ==>
      StandsUpTo(ReTokens(re), Best(ReTokens(re)), |a| + |l|)
  {
    FixedIsBest(re, running);
    TopRe(NOTHING, re);
    FirstStands(ReTokens(re), a, l, b, Best(ReTokens(re)));
  }

  /** What is recorded is itself such a stretch: it has as many characters as the run, which stands
      among the tokens outside groups and brackets; and with a bar outside groups there is none. */
  lemma RecordedStands(re: Re, running: bool)
    requires ReWritten(re) && Countable(PrintRe(re)) && !AllLiterals(ReTokens(re)) && !NewlineFirst(ReTokens(re))
    ensures var at, best := Fixed(PrintRe(re), running), Best(ReTokens(re));
      && (re.Union? ==> best == "")
      && (Any(at) ==> FixedSize(at) == |best| && exists i :: StandsIn(ReTokens(re), best, i))
  {
    var toks := ReTokens(re);
    FixedIsBest(re, running);
    TopRe(NOTHING, re);
    if Best(toks) != "" {
      PrefixStands(toks, |toks|);
      assert toks[..|toks|] == toks;
      FinalStands(toks, |toks|, FixAll(NOTHING, toks));
      var i :| StandsBy(toks, Best(toks), i, |toks|);
      assert StandsIn(toks, Best(toks), i);
    }
  }
}
