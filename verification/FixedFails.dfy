/** Where the fixed substring is wrong: before a range from zero, for backslashes that are
    literals, and behind a newline that comes first. */
module FixedFails {
  import opened Regex
  import opened Lexer
  import opened Sentences
  import opened Context
  import opened Compilation
  import opened Lfix
  import opened Rxvm
  import opened FixedText

  /** A character that is written without a backslash and is no newline. */
  predicate PlainChar(c: char) { ChrWritten(Chr(c, false)) && c != '\n' }

  /** Outside brackets and groups, with this run, this longest run, and no newline so far. */
  function State(cur: string, best: string, loose: bool, lead: bool): Fix {
    Fix(Run(cur, best, loose), 0, false, false, lead, false, false)
  }

  function Alone(e: Elem): Basic { Basic(e, Once) }

  /** One more element, which matches one more character. */
  lemma OneMatch(init: Cat, e: Elem, env: Env, i: int, m: int)
    requires CatWritten(init) && ElemWritten(e) && MatchCat(init, env, i, m) && MatchElem(e, env, m, m + 1)
    ensures MatchCat(Then(init, Alone(e)), env, i, m + 1)
  {
    assert Iterate(e, env, 0, m + 1, m + 1) && Iterate(e, env, 1, m, m + 1);
    assert Allows(Once, 1) && MatchBasic(Alone(e), env, m, m + 1);
  }

  lemma LetterMatch(init: Cat, ch: Chr, env: Env, i: int, m: int)
    requires CatWritten(init) && ChrWritten(ch) && MatchCat(init, env, i, m)
    requires 0 <= m < |env.text| && env.text[m] == ch.c
    ensures MatchCat(Then(init, Alone(Lit(ch))), env, i, m + 1)
  {
    OneMatch(init, Lit(ch), env, i, m);
  }

  lemma LetterFix(init: Cat, ch: Chr, cur: string, best: string, loose: bool, lead: bool)
    requires CatWritten(init) && ChrWritten(ch) && ch.c != '\n'
    requires FixAll(NOTHING, CatTokens(init)) == State(cur, best, loose, lead)
    ensures FixAll(NOTHING, CatTokens(Then(init, Alone(Lit(ch))))) == State(cur + [ch.c], best, loose, lead)
  {
    FixConcat(NOTHING, CatTokens(init), BasicTokens(Alone(Lit(ch))));
    BasicFix(State(cur, best, loose, lead), Alone(Lit(ch)));
  }

  lemma {:induction false} LetterFirst(init: Cat, b: Basic)
    requires b.elem.Lit?
    ensures CatTokens(Then(init, b)) != []
    ensures CatTokens(Then(init, b))[0] == if CatTokens(init) == [] then Literal(b.elem.ch.c) else CatTokens(init)[0]
  {
    assert ElemTokens(b.elem) == [Literal(b.elem.ch.c)];
    assert BasicTokens(b)[0] == Literal(b.elem.ch.c);
  }

  // ----- ranges from zero -----

  function Ranged(c: char, m: string): Basic { Letter(c, Between("0", m)) }

  lemma RangedFix(init: Cat, c: char, m: string, cur: string)
    requires CatWritten(init) && PlainChar(c) && IsNumber(m) && cur != ""
    requires FixAll(NOTHING, CatTokens(init)) == State(cur, "", false, true)
    ensures FixAll(NOTHING, CatTokens(Then(init, Ranged(c, m)))) == State("", cur + [c], true, false)
    ensures !AllLiterals(CatTokens(Then(init, Ranged(c, m))))
  {
    var b := Ranged(c, m);
    assert QuantWritten(b.quant);
    FixConcat(NOTHING, CatTokens(init), BasicTokens(b));
    BasicFix(State(cur, "", false, true), b);
    assert BasicTokens(b) == [Literal(c), Rep(PrintCounts(b.quant))];
    assert (CatTokens(init) + BasicTokens(b))[|CatTokens(init)| + 1] == Rep(PrintCounts(b.quant));
  }

  lemma RangedRecorded(cat: Cat, best: string, running: bool)
    requires CatWritten(cat) && Countable(PrintRe(Simple(cat))) && !AllLiterals(CatTokens(cat))
    requires FixAll(NOTHING, CatTokens(cat)) == State("", best, true, false) && CatTokens(cat)[0] != Literal('\n')
    ensures Placed(PrintRe(Simple(cat)), Fixed(PrintRe(Simple(cat)), running), best)
  {
    assert ReTokens(Simple(cat)) == CatTokens(cat);
    FixedIsBest(Simple(cat), running);
  }

  function Letters(a: char, b: char): Cat { Then(Then(Empty, Letter(a, Once)), Letter(b, Once)) }

  lemma LettersMatch(a: char, b: char, env: Env)
    requires PlainChar(a) && PlainChar(b) && |env.text| >= 2 && env.text[0] == a && env.text[1] == b
    ensures CatWritten(Letters(a, b)) && MatchCat(Letters(a, b), env, 0, 2)
  {
    assert CatWritten(Empty) && CatWritten(Letters(a, b).init);
    LetterMatch(Empty, Chr(a, false), env, 0, 0);
    LetterMatch(Letters(a, b).init, Chr(b, false), env, 0, 1);
  }

  lemma LettersFix(a: char, b: char)
    requires PlainChar(a) && PlainChar(b)
    ensures CatWritten(Letters(a, b)) && FixAll(NOTHING, CatTokens(Letters(a, b))) == State([a, b], "", false, true)
    ensures CatTokens(Letters(a, b)) != [] && CatTokens(Letters(a, b))[0] == Literal(a)
  {
    LetterFirst(Empty, Letter(a, Once));
    LetterFirst(Letters(a, b).init, Letter(b, Once));
    LetterFix(Empty, Chr(a, false), "", "", false, true);
    LetterFix(Letters(a, b).init, Chr(b, false), [a], "", false, true);
  }

  lemma ZeroRangeMatches(a: char, b: char, c: char, m: string, env: Env)
    requires PlainChar(a) && PlainChar(b) && PlainChar(c) && IsNumber(m) && env == Env([a, b], false, true)
    ensures CatWritten(Letters(a, b)) && CatWritten(Then(Letters(a, b), Ranged(c, m)))
    ensures MatchCat(Then(Letters(a, b), Ranged(c, m)), env, 0, 2)
  {
    var last := Ranged(c, m);
    assert QuantWritten(last.quant);
    LettersMatch(a, b, env);
    assert Number("0") == 0 && Allows(last.quant, 0) && Iterate(last.elem, env, 0, 2, 2);
    assert MatchBasic(last, env, 2, 2);
  }

  /** The run is not shortened before {0,m}: of the pattern abc{0,m}, with any characters for a,
      b and c, all three are recorded; but the two characters a, b alone match it. */
  lemma ZeroRangeFails(a: char, b: char, c: char, m: string, running: bool)
    requires PlainChar(a) && PlainChar(b) && PlainChar(c) && IsNumber(m)
    ensures var re := Simple(Then(Letters(a, b), Ranged(c, m)));
      && ReWritten(re) && MatchRe(re, Env([a, b], false, true), 0, 2)
      && !Contains(Env([a, b], false, true), [a, b, c], 0, 2)
      && (Countable(PrintRe(re)) ==>
            var at := Fixed(PrintRe(re), running); 0 <= at.0 && Any(at) && Recorded(PrintRe(re), at) == [a, b, c])
  {
    var cat := Then(Letters(a, b), Ranged(c, m));
    ZeroRangeMatches(a, b, c, m, Env([a, b], false, true));
    LettersFix(a, b);
    RangedFix(Letters(a, b), c, m, [a, b]);
    LetterFirst(Letters(a, b), Ranged(c, m));
    if Countable(PrintRe(Simple(cat))) {
      RangedRecorded(cat, [a, b, c], running);
    }
  }

  // ----- a range from zero that does no harm -----

  /** abc{0,m}abc */
  function Twice(a: char, b: char, c: char, m: string): Cat {
    Then(Then(Then(Then(Letters(a, b), Ranged(c, m)), Letter(a, Once)), Letter(b, Once)), Letter(c, Once))
  }

  lemma LastLetter(init: Cat, ch: Chr, env: Env, i: int, j: int)
    requires CatWritten(init) && ChrWritten(ch) && 0 <= i <= |env.text|
    requires MatchCat(Then(init, Alone(Lit(ch))), env, i, j)
    ensures MatchCat(init, env, i, j - 1) && i < j <= |env.text| && CharEq(env.icase, env.text[j - 1], ch.c)
  {
    var m :| MatchCat(init, env, i, m) && MatchBasic(Alone(Lit(ch)), env, m, j);
    CatForward(init, env, i, m);
    FirstLiteral(Alone(Lit(ch)), env, m, j);
  }

  lemma TwiceEnds(a: char, b: char, c: char, init: Cat, one: Cat, two: Cat, env: Env, i: int, j: int)
    requires PlainChar(a) && PlainChar(b) && PlainChar(c) && CatWritten(init) && 0 <= i <= |env.text|
    requires one == Then(init, Letter(a, Once)) && CatWritten(one) && two == Then(one, Letter(b, Once))
    requires CatWritten(two) && CatWritten(Then(two, Letter(c, Once)))
    requires MatchCat(Then(two, Letter(c, Once)), env, i, j)
    ensures Contains(env, [a, b, c], i, j)
  {
    LastLetter(two, Chr(c, false), env, i, j);
    LastLetter(one, Chr(b, false), env, i, j - 1);
    LastLetter(init, Chr(a, false), env, i, j - 2);
    assert FoundAt(env, [a, b, c], j - 3);
  }

  lemma LiteralsLess(init: Cat, b: Basic)
    requires !AllLiterals(CatTokens(init))
    ensures !AllLiterals(CatTokens(Then(init, b)))
  {
    var k :| 0 <= k < |CatTokens(init)| && !CatTokens(init)[k].Literal?;
    assert CatTokens(Then(init, b))[k] == CatTokens(init)[k];
  }

  lemma TwiceFix(a: char, b: char, c: char, init: Cat)
    requires PlainChar(a) && PlainChar(b) && PlainChar(c) && CatWritten(init) && !AllLiterals(CatTokens(init))
    requires FixAll(NOTHING, CatTokens(init)) == State("", [a, b, c], true, false)
    ensures var cat := Then(Then(Then(init, Letter(a, Once)), Letter(b, Once)), Letter(c, Once));
      CatWritten(cat) && BestLoose(CatTokens(cat)) && Best(CatTokens(cat)) == [a, b, c]
  {
    var one, two := Then(init, Letter(a, Once)), Then(Then(init, Letter(a, Once)), Letter(b, Once));
    LetterFix(init, Chr(a, false), "", [a, b, c], true, false);
    LetterFix(one, Chr(b, false), [a], [a, b, c], true, false);
    LetterFix(two, Chr(c, false), [a, b], [a, b, c], true, false);
    LiteralsLess(init, Letter(a, Once));
    LiteralsLess(one, Letter(b, Once));
    LiteralsLess(two, Letter(c, Once));
  }

  /** So a range from zero at the end of the run is no proof against it: of abc{0,m}abc the run
      before the range is recorded, and every match contains it, because it stands there again. */
  lemma LooseNotNeeded(a: char, b: char, c: char, m: string, env: Env, i: int, j: int)
    requires PlainChar(a) && PlainChar(b) && PlainChar(c) && IsNumber(m) && 0 <= i <= |env.text|
    ensures var re := Simple(Twice(a, b, c, m));
      ReWritten(re) && BestLoose(ReTokens(re)) && Best(ReTokens(re)) == [a, b, c] &&
      (MatchRe(re, env, i, j) ==> Contains(env, [a, b, c], i, j))
  {
    var init := Then(Letters(a, b), Ranged(c, m));
    LettersFix(a, b);
    assert QuantWritten(Between("0", m)) && CatWritten(init);
    RangedFix(Letters(a, b), c, m, [a, b]);
    TwiceFix(a, b, c, init);
    if MatchRe(Simple(Twice(a, b, c, m)), env, i, j) {
      var one := Then(init, Letter(a, Once));
      TwiceEnds(a, b, c, init, one, Then(one, Letter(b, Once)), env, i, j);
    }
  }

  // ----- backslashes -----

  /** ch, n times. */
  function Row(n: nat, ch: Chr): Cat {
    if n == 0 then Empty else Then(Row(n - 1, ch), Alone(Lit(ch)))
  }

  function Spelling(n: nat, c: char): (s: string)
    ensures |s| == n && forall k :: 0 <= k < n ==> s[k] == c
  {
    if n == 0 then "" else Spelling(n - 1, c) + [c]
  }

  const SLASH := Chr('\\', true)

  lemma {:induction false} KeptMore(s: string, c: char)
    ensures Kept(s + [c]) == Kept(s) + if c == '\\' then 0 else 1
    decreases |s|
  {
    if s == "" {
      assert s + [c] == [c] && [c][1..] == "";
    } else {
      assert (s + [c])[0] == s[0] && (s + [c])[1..] == s[1..] + [c];
      KeptMore(s[1..], c);
    }
  }

  lemma {:induction false} KeptLess(s: string, i: int)
    requires 0 <= i <= |s|
    ensures Kept(s[i..]) <= Kept(s)
    decreases i
  {
    if i == 0 {
      assert s[0..] == s;
    } else {
      KeptLess(s, i - 1);
      assert s[i - 1..][1..] == s[i..];
    }
  }

  lemma {:induction false} RowFix(n: nat, ch: Chr)
    requires ChrWritten(ch) && ch.c != '\n'
    ensures CatWritten(Row(n, ch))
    ensures FixAll(NOTHING, CatTokens(Row(n, ch))) == State(Spelling(n, ch.c), "", false, true)
    ensures if n == 0 then CatTokens(Row(n, ch)) == [] else CatTokens(Row(n, ch))[0] == Literal(ch.c)
  {
    if n > 0 {
      LetterFirst(Row(n - 1, ch), Alone(Lit(ch)));
      RowFix(n - 1, ch);
      LetterFix(Row(n - 1, ch), ch, Spelling(n - 1, ch.c), "", false, true);
    }
  }

  /** No character that lfix_to_str keeps. */
  predicate Blank(s: string) { Kept(s) == 0 }

  lemma BlankMore(s: string, t: string)
    requires Blank(s) && t == ['\\', '\\']
    ensures Blank(s + t)
  {
    KeptMore(s, '\\');
    KeptMore(s + ['\\'], '\\');
    assert s + t == (s + ['\\']) + ['\\'];
  }

  lemma {:induction false} RowBlank(n: nat, ch: Chr)
    requires ch == SLASH
    ensures Blank(PrintCat(Row(n, ch))) && |PrintCat(Row(n, ch))| == 2 * n
  {
    if n > 0 {
      RowBlank(n - 1, ch);
      var last := Alone(Lit(ch));
      assert PrintBasic(last) == ['\\', '\\'];
      BlankMore(PrintCat(Row(n - 1, ch)), PrintBasic(last));
    }
  }

  lemma DotFix(init: Cat, cur: string)
    requires CatWritten(init) && FixAll(NOTHING, CatTokens(init)) == State(cur, "", false, true)
    ensures var toks := CatTokens(Then(init, Alone(AnyChar)));
      !AllLiterals(toks) && (|cur| >= 2 ==> Best(toks) == cur)
  {
    FixConcat(NOTHING, CatTokens(init), BasicTokens(Alone(AnyChar)));
    BasicFix(State(cur, "", false, true), Alone(AnyChar));
    assert (CatTokens(init) + BasicTokens(Alone(AnyChar)))[|CatTokens(init)|] == AnyTok;
  }

  // ----- reading past the end -----

  /** lfix_to_str reads behind the terminator. */
  predicate ReadsPast(text: string, at: (int, int)) { Any(at) && !InBounds(text, Signed(at.0), Copied(at)) }

  /** It reads just as far as the terminator, and copies that. */
  predicate TakesEnd(text: string, at: (int, int)) {
    Any(at) && InBounds(text, Signed(at.0), Copied(at)) && !CanGo(text, Signed(at.0), Copied(at))
  }

  lemma {:induction false} KeptSpells(text: string, q: int, s: string, p: int)
    requires Spells(text, q, s, p)
    ensures Kept(text[q..]) == |s| - Backslashes(s) + Kept(text[p..])
    decreases |s|
  {
    if s != "" {
      assert text[q..][1..] == text[q + 1..];
      if text[q] == '\\' {
        assert text[q + 1..][1..] == text[q + 2..];
        KeptSpells(text, q + 2, s[1..], p);
      } else {
        KeptSpells(text, q + 1, s[1..], p);
      }
    }
  }

  lemma KeptSpelled(text: string, i: int, s: string, p: int)
    requires Spelled(text, i, s, p) && s != ""
    ensures 0 <= i <= p <= |text| && Kept(text[i..]) == |s| - Backslashes(s) + Kept(text[p..])
  {
    SpelledFits(text, i, s, p);
    if Spells(text, i, s, p) {
      KeptSpells(text, i, s, p);
    } else {
      KeptSpells(text, i - 1, s, p);
      assert text[i - 1..][1..] == text[i..];
    }
  }

  /** The places of a run that ends at p: each backslash spelled in it makes lfix_to_str take one
      more character from behind the run. */
  lemma SpelledReads(text: string, at: (int, int), s: string, p: int)
    requires Countable(text) && |s| >= 2 && FixedSize(at) == Copied(at) == |s| && Spelled(text, at.0, s, p)
    ensures 0 <= p <= |text|
    ensures ReadsPast(text, at) <==> Backslashes(s) > Kept(text[p..]) + 1
    ensures TakesEnd(text, at) <==> Backslashes(s) == Kept(text[p..]) + 1
  {
    KeptSpelled(text, at.0, s, p);
  }

  lemma RunReads(re: Re, running: bool) returns (p: int)
    requires ReWritten(re) && Countable(PrintRe(re)) && !AllLiterals(ReTokens(re)) && !NewlineFirst(ReTokens(re))
    ensures var text, best, at := PrintRe(re), Best(ReTokens(re)), Fixed(PrintRe(re), running);
      && 0 <= p <= |text| && (|best| >= 2 ==> Spelled(text, at.0, best, p))
      && (ReadsPast(text, at) <==> |best| >= 2 && Backslashes(best) > Kept(text[p..]) + 1)
      && (TakesEnd(text, at) <==> |best| >= 2 && Backslashes(best) == Kept(text[p..]) + 1)
  {
    var text, best, at := PrintRe(re), Best(ReTokens(re)), Fixed(PrintRe(re), running);
    FixedIsBest(re, running);
    p := 0;
    if |best| >= 2 {
      p :| Spelled(text, at.0, best, p);
      SpelledReads(text, at, best, p);
    }
  }

  /** For literals alone it stays in front of the terminator. */
  lemma LiteralsStay(re: Re, running: bool)
    requires ReWritten(re) && Countable(PrintRe(re)) && AllLiterals(ReTokens(re))
    ensures var text, at := PrintRe(re), Fixed(PrintRe(re), running); !ReadsPast(text, at) && !TakesEnd(text, at)
    ensures var b := Before(Chars(ReTokens(re))); FixedSize(Fixed(PrintRe(re), running)) == |b| - Backslashes(b)
  {
    var text, toks := PrintRe(re), ReTokens(re);
    LiteralsSpelled(re);
    var s := Chars(toks);
    var b := Before(s);
    SimpleSpelled(text, 0, s, 0);
    SpellsFits(text, 0, s, |text|);
    SlashesFewer(b);
    SizeOf(SimpleMark(text, 0, 0));
    var r := SpellsBefore(text, 0, s, |text|);
    KeptSpells(text, 0, b, r);
  }

  lemma DotKept(init: Cat)
    requires CatWritten(init) && Blank(PrintCat(init)) && |PrintCat(init)| < INT_SIZE - 2
    requires CatTokens(init) != [] && CatTokens(init)[0] != Literal('\n')
    ensures var re := Simple(Then(init, Alone(AnyChar)));
      && ReWritten(re) && Countable(PrintRe(re)) && PrintRe(re) == PrintCat(init) + ['.']
      && ReTokens(re) == CatTokens(re.body) && ReTokens(re)[0] != Literal('\n')
  {
    var text, last := PrintCat(init), Alone(AnyChar);
    assert PrintBasic(last) == ['.'];
    assert PrintCat(Then(init, last)) == text + ['.'];
    assert CatTokens(Then(init, last))[0] == CatTokens(init)[0];
  }

  /** What follows in a text that is blank up to a final dot. */
  lemma KeptToDot(text: string, blank: string, i: int)
    requires Blank(blank) && text == blank + ['.'] && 0 <= i < |text|
    ensures Kept(text[i..]) == 1
  {
    KeptMore(blank[i..], '.');
    KeptLess(blank, i);
    assert text[i..] == blank[i..] + ['.'];
  }

  lemma {:induction false} AllSlashes(s: string)
    requires forall k :: 0 <= k < |s| ==> s[k] == '\\'
    ensures Backslashes(s) == |s|
    decreases |s|
  {
    if s != "" { AllSlashes(s[1..]); }
  }

  lemma DotReads(init: Cat, cur: string, running: bool)
    requires CatWritten(init) && Blank(PrintCat(init)) && |PrintCat(init)| < INT_SIZE - 2 && |cur| >= 2
    requires FixAll(NOTHING, CatTokens(init)) == State(cur, "", false, true) && Backslashes(cur) == |cur|
    requires CatTokens(init) != [] && CatTokens(init)[0] != Literal('\n')
    ensures var re := Simple(Then(init, Alone(AnyChar))); var text, at := PrintRe(re), Fixed(PrintRe(re), running);
      ReWritten(re) && (ReadsPast(text, at) <==> |cur| > 2) && (TakesEnd(text, at) <==> |cur| == 2)
  {
    DotFix(init, cur);
    DotKept(init);
    var re := Simple(Then(init, Alone(AnyChar)));
    var at := Fixed(PrintRe(re), running);
    var p := RunReads(re, running);
    KeptSpelled(PrintRe(re), at.0, cur, p);
    SpelledFits(PrintRe(re), at.0, cur, p);
    KeptToDot(PrintRe(re), PrintCat(init), at.0);
  }

  /** For two escaped backslashes and a dot it copies the dot and the terminator; for more of them it
      reads behind the terminator. */
  lemma SlashesReadPast(n: nat, ch: Chr, running: bool)
    requires 2 <= n < INT_SIZE / 2 - 1 && ch == SLASH
    ensures var re := Simple(Then(Row(n, ch), Alone(AnyChar)));
      var text, at := PrintRe(re), Fixed(PrintRe(re), running);
      ReWritten(re) && (ReadsPast(text, at) <==> n > 2) && (TakesEnd(text, at) <==> n == 2)
  {
    RowFix(n, ch);
    RowBlank(n, ch);
    AllSlashes(Spelling(n, ch.c));
    DotReads(Row(n, ch), Spelling(n, ch.c), running);
  }

  lemma BackslashRecorded(a: char, text: string, running: bool)
    requires PlainChar(a) && a != '\n' && text == ['\\', '\\', a, '.']
    ensures Fixed(text, running) == (0, 1)
  {
    assert LexAt(text, 0, false) == Lexed(Literal('\\'), 2, false);
    assert LexAt(text, 2, false) == Lexed(Literal(a), 3, false);
    assert LexAt(text, 3, false) == Lexed(AnyTok, 4, false);
    assert LeadEnd(text, 2) == 3 && LeadEnd(text, 0) == 3;
    assert BacklogMark(text, 3, 2, 0, 1) == 1 && BacklogMark(text, 3, 0, 0, 0) == 1;
    var t := Track(Marks(0, 1, 0, 0, running), 0, false, false, false);
    var t1 := TrackToken(t, AnyTok, 4);
    TrackOn(text, 3, false, t);
    TrackOn(text, 4, false, t1);
    assert '\n' !in text[..3];
    assert Ended(t1.marks).fix0 == 0 && Ended(t1.marks).fixn == 1;
    assert Fixed(text, running) == (0, 1);
  }

  lemma BackslashTaken(a: char, text: string, at: (int, int))
    requires PlainChar(a) && text == ['\\', '\\', a, '.'] && at == (0, 1)
    ensures Recorded(text, at) == [a, '.']
  {
    assert Collect(text, 3, 1) == ['.'] + Collect(text, 4, 0);
    assert Collect(text, 2, 2) == [a] + Collect(text, 3, 1);
    assert Collect(text, 1, 2) == Collect(text, 2, 2);
  }

  /** Of an escaped backslash, a letter and a dot. */
  function SlashDot(a: char): Re { Simple(Then(Then(Row(1, SLASH), Letter(a, Once)), Alone(AnyChar))) }

  lemma SlashDotPrinted(a: char)
    ensures PrintRe(SlashDot(a)) == ['\\', '\\', a, '.']
  {
    assert PrintCat(Row(0, SLASH)) == "";
    assert PrintBasic(Alone(Lit(SLASH))) == ['\\', '\\'];
    assert PrintCat(Row(1, SLASH)) == ['\\', '\\'];
    assert PrintBasic(Letter(a, Once)) == [a] && PrintBasic(Alone(AnyChar)) == ['.'];
    assert PrintCat(Then(Row(1, SLASH), Letter(a, Once))) == ['\\', '\\', a];
  }

  lemma SlashDotMatches(a: char, b: char, env: Env)
    requires PlainChar(a) && b != '\n' && env == Env(['\\', a, b], false, true)
    ensures ReWritten(SlashDot(a)) && MatchRe(SlashDot(a), env, 0, 3)
  {
    assert CatWritten(Row(0, SLASH)) && Row(0, SLASH) == Empty;
    LetterMatch(Row(0, SLASH), SLASH, env, 0, 0);
    LetterMatch(Row(1, SLASH), Chr(a, false), env, 0, 1);
    OneMatch(Then(Row(1, SLASH), Letter(a, Once)), AnyChar, env, 0, 2);
  }

  /** lfix_to_str drops both halves of an escaped backslash and reads on: of an escaped
      backslash, a and a dot, what it returns is a and the dot, as if that were a literal; but a
      backslash, a and any other character match without it. */
  lemma BackslashFails(a: char, b: char, running: bool)
    requires PlainChar(a) && a != '\n' && b != '.' && b != '\n'
    ensures var re, env := SlashDot(a), Env(['\\', a, b], false, true);
      && PrintRe(re) == ['\\', '\\', a, '.'] && ReWritten(re) && MatchRe(re, env, 0, 3)
      && Fixed(PrintRe(re), running) == (0, 1) && Recorded(PrintRe(re), (0, 1)) == [a, '.']
      && !Contains(env, [a, '.'], 0, 3)
  {
    var env := Env(['\\', a, b], false, true);
    SlashDotPrinted(a);
    SlashDotMatches(a, b, env);
    BackslashRecorded(a, PrintRe(SlashDot(a)), running);
    BackslashTaken(a, PrintRe(SlashDot(a)), (0, 1));
    assert forall h :: FoundAt(env, [a, '.'], h) ==>
        CharEq(false, env.text[h + 0], [a, '.'][0]) && CharEq(false, env.text[h + 1], [a, '.'][1]);
  }

  // ----- a newline in front -----

  /** The first token that is no literal. */
  function Other(toks: seq<Token>): Token
    requires !AllLiterals(toks)
  {
    if toks[0].Literal? then Other(toks[1..]) else toks[0]
  }

  /** As far as groups, brackets and bars are concerned. */
  predicate Level(t: Track, f: Fix) { t.depth == f.depth && t.inClass == f.inClass && t.altSeen == f.alt }

  lemma {:induction false} WalkLevel(text: string, stops: seq<(int, bool)>, toks: seq<Token>, k: int, t: Track, f: Fix)
    requires Walk(text, stops, toks) && 0 <= k <= |toks| && stops[|toks|].0 == |text| && Level(t, f)
    ensures TrackAll(text, stops[k].0, stops[k].1, t).altSeen == FixAll(f, toks[k..]).alt
    decreases |toks| - k
  {
    TrackOn(text, stops[k].0, stops[k].1, t);
    if k < |toks| {
      assert LexedAt(text, stops, toks, k);
      FixOn(f, toks, k);
      WalkLevel(text, stops, toks, k + 1, TrackToken(t, toks[k], stops[k + 1].0), FixToken(f, toks[k]));
    } else {
      assert toks[k..] == [];
    }
  }

  /** Once a newline is seen and no run is in progress, what is recorded stays. */
  predicate Rests(m: Marks, fixn: int) {
    m.temp0 == 0 && m.tempn == 0 && m.fix0 == 0 && m.fixn == fixn && 0 <= fixn < UINT_SIZE
  }

  lemma {:induction false} RecordStays(text: string, p: int, lit: bool, t: Track, fixn: int)
    requires 0 <= p <= |text| && t.newline && Rests(t.marks, fixn)
    ensures Rests(TrackAll(text, p, lit, t).marks, fixn)
    decreases |text| - p
  {
    var r := LexAt(text, p, lit);
    TrackOn(text, p, lit, t);
    if r.tok != End && !r.tok.Fail? {
      RecordStays(text, r.next, r.literal, TrackToken(t, r.tok, r.next), fixn);
    }
  }

  lemma {:induction false} BacklogStays(text: string, simple: int, orig: int, fixtemp: int, delimit: int)
    requires 0 <= orig && simple <= |text| && fixtemp != 0
    ensures BacklogMark(text, simple, orig, fixtemp, delimit) == fixtemp
    decreases simple - orig
  {
    if orig < simple {
      var (o, d) := if text[orig] == '\\' then (orig + 1, delimit + 1) else (orig, delimit);
      BacklogStays(text, simple, o + 1, fixtemp, d);
    }
  }

  lemma NewlineMark(text: string, next: int, simple: int)
    requires LexAt(text, 0, false) == Lexed(Literal('\n'), next, false) && next <= simple <= |text|
    ensures BacklogMark(text, simple, 0, 0, 0) == -1 && '\n' in text[..simple]
  {
    BacklogStays(text, simple, next, -1, next - 1);
    assert text[..simple][next - 1] == '\n';
  }

  lemma {:induction false} LeadFound(text: string, stops: seq<(int, bool)>, toks: seq<Token>, k: int, f: Fix, p: int)
    returns (n: int, g: Fix, simple: int)
    requires Walk(text, stops, toks) && stops[|toks|].0 == |text| && 0 <= k <= |toks| && stops[k] == (p, false)
    requires !AllLiterals(toks[k..]) && !f.inClass
    ensures k <= n < |toks| && stops[n] == (simple, false) && Other(toks[k..]) == toks[n] && !toks[n].Literal?
    ensures LeadEnd(text, p) == simple && p <= simple && (toks[k].Literal? ==> stops[k + 1].0 <= simple)
    ensures Beside(f, g) && FixAll(g, toks[n..]) == FixAll(f, toks[k..])
    decreases |toks| - k
  {
    assert toks[k..] != [] && toks[k..][0] == toks[k] && toks[k..][1..] == toks[k + 1..];
    if toks[k].Literal? {
      LeadLexed(text, stops, toks, k, p, stops[k + 1].0, toks[k].c);
      n, g, simple := LeadFound(text, stops, toks, k + 1, FixToken(f, toks[k]), stops[k + 1].0);
      FixOn(f, toks, k);
    } else {
      assert LexedAt(text, stops, toks, k);
      n, g, simple := k, f, p;
    }
  }

  /** The places after the first token that is no literal. */
  lemma FirstOther(text: string, t: Track, tok: Token, next: int)
    requires t.marks.temp0 == t.marks.fix0 == t.marks.fixn == 0 && t.marks.tempn == UINT_SIZE - 1
    requires !tok.Literal? && !t.inClass && t.newline
    ensures var t1 := TrackToken(t, tok, next);
      t1.newline && Rests(t1.marks, if DropsLast(tok) then UINT_SIZE - 2 else UINT_SIZE - 1)
  {
  }

  /** What the tracker ends with, from the first token that is no literal on. */
  lemma NewlineMarks(text: string, simple: int, lit: bool, t: Track, tok: Token, next: int, fixn: int)
    requires 0 <= simple <= |text| && LexAt(text, simple, false) == Lexed(tok, next, lit)
    requires !tok.Literal? && tok != End && !tok.Fail? && !t.inClass && t.newline
    requires t.marks.temp0 == t.marks.fix0 == t.marks.fixn == 0 && t.marks.tempn == UINT_SIZE - 1
    requires fixn == if DropsLast(tok) then UINT_SIZE - 2 else UINT_SIZE - 1
    ensures Rests(TrackAll(text, simple, false, t).marks, fixn)
  {
    FirstOther(text, t, tok, next);
    RecordStays(text, next, lit, TrackToken(t, tok, next), fixn);
    TrackOn(text, simple, false, t);
  }

  lemma NewlineTracked(text: string, stops: seq<(int, bool)>, toks: seq<Token>, n: int, g: Fix, running: bool)
    requires Walk(text, stops, toks) && stops[|toks|].0 == |text| && 0 <= n < |toks| && !stops[n].1
    requires !toks[n].Literal? && LeadEnd(text, 0) == stops[n].0 && Beside(NOTHING, g)
    requires BacklogMark(text, stops[n].0, 0, 0, 0) == -1 && '\n' in text[..stops[n].0]
    ensures Fixed(text, running) ==
      if FixAll(g, toks[n..]).alt then (0, 0) else (0, if DropsLast(toks[n]) then UINT_SIZE - 2 else UINT_SIZE - 1)
  {
    assert LexedAt(text, stops, toks, n);
    var simple, fixn := stops[n].0, if DropsLast(toks[n]) then UINT_SIZE - 2 else UINT_SIZE - 1;
    assert Unsigned(-1) == UINT_SIZE - 1;
    var t := Track(Marks(0, UINT_SIZE - 1, 0, 0, running), 0, false, false, true);
    NewlineMarks(text, simple, stops[n + 1].1, t, toks[n], stops[n + 1].0, fixn);
    WalkLevel(text, stops, toks, n, t, g);
    RestsEnded(TrackAll(text, simple, false, t).marks, fixn);
  }

  lemma RestsEnded(m: Marks, fixn: int)
    requires Rests(m, fixn)
    ensures Ended(m).fix0 == 0 && Ended(m).fixn == fixn
  {
  }

  /** If a newline comes first the counter wraps around. Then nothing is recorded, except when the
      leading literals end at one that may be left out: the length recorded then is the greatest
      there is, but the end is negative for lfix_to_str, and the substring is empty. */
  lemma NewlineWraps(re: Re, running: bool)
    requires ReWritten(re) && Countable(PrintRe(re)) && NewlineFirst(ReTokens(re))
    ensures var at := Fixed(PrintRe(re), running);
      && (Any(at) <==> re.Simple? && DropsLast(Other(ReTokens(re))))
      && (Any(at) ==> FixedSize(at) == UINT_SIZE - 1 && Copied(at) == 0 && Recorded(PrintRe(re), at) == "")
      && !ReadsPast(PrintRe(re), at) && !TakesEnd(PrintRe(re), at)
  {
    var text, toks := PrintRe(re), ReTokens(re);
    assert forall k :: 0 <= k < |text| ==> Same(text, 0, text, k);
    LexRe(text, 0, re, |text|);
    var stops: seq<(int, bool)> :|
      Walk(text, stops, toks) && stops[0] == (0, false) && stops[|toks|] == (|text|, false);
    assert toks[0..] == toks;
    var n, g, simple := LeadFound(text, stops, toks, 0, NOTHING, 0);
    LeadLexed(text, stops, toks, 0, 0, stops[1].0, '\n');
    NewlineMark(text, stops[1].0, simple);
    NewlineTracked(text, stops, toks, n, g, running);
    TopRe(NOTHING, re);
  }

  // ----- every sentence -----

  /** Exactly when lfix_to_str reads behind the terminator of a pattern, and when it copies the
      terminator: when more backslashes are spelled in the longest run than other characters follow
      it, unless the pattern is all literals or goes on from a newline in front. */
  lemma ReadsPastExact(re: Re, running: bool) returns (p: int)
    requires ReWritten(re) && Countable(PrintRe(re))
    ensures var text, toks, at := PrintRe(re), ReTokens(re), Fixed(PrintRe(re), running);
      var run := !AllLiterals(toks) && !NewlineFirst(toks) && |Best(toks)| >= 2;
      && 0 <= p <= |text| && (run ==> Spelled(text, at.0, Best(toks), p))
      && (ReadsPast(text, at) <==> run && Backslashes(Best(toks)) > Kept(text[p..]) + 1)
      && (TakesEnd(text, at) <==> run && Backslashes(Best(toks)) == Kept(text[p..]) + 1)
  {
    if AllLiterals(ReTokens(re)) {
      LiteralsStay(re, running);
      p := 0;
    } else if NewlineFirst(ReTokens(re)) {
      NewlineWraps(re, running);
      p := 0;
    } else {
      p := RunReads(re, running);
    }
  }
}
