/** rxvm_search of librxvm/rxvm.c. The search tries some start positions and skips others; this
    module says what a hit and a miss are worth. */
module Searching {
  import opened Regex
  import opened Program
  import opened CodeGen
  import opened CodeMeaning
  import opened ThreadSets
  import opened Sentences
  import Lexer
  import opened Context
  import opened Rxvm
  import Compilation
  import SimpleMatch
  import LiteralSearch
  import Stage2
  import Vm

  /** s is one of the start positions tried, beginning with `from`. */
  ghost predicate Tried(prog: seq<Inst>, env: Env, from: int, s: int)
    requires 0 <= from <= |env.text|
    decreases |env.text| - from
  {
    || s == from
    || var d := Dead(prog, env, from, from);
       d < |env.text| && Tried(prog, env, NextStart(from, d), s)
  }

  ghost predicate NoMatchAt(prog: seq<Inst>, env: Env, s: int) {
    forall p :: !Accepts(prog, env, s, p)
  }

  lemma {:induction false} TriedAfter(prog: seq<Inst>, env: Env, from: int, s: int)
    requires 0 <= from <= |env.text| && Tried(prog, env, from, s)
    ensures from <= s <= |env.text|
    decreases |env.text| - from
  {
    if s != from {
      TriedAfter(prog, env, NextStart(from, Dead(prog, env, from, from)), s);
    }
  }

  /** What one attempt comes to. */
  lemma AttemptExact(prog: seq<Inst>, env: Env, nongreedy: bool, st: int)
    requires ProgramOk(prog) && 0 <= st <= |env.text|
    ensures var e := AttemptEnd(prog, env, nongreedy, st);
      && (e == -1 ==> NoMatchAt(prog, env, st))
      && (e >= 0 ==> Accepts(prog, env, st, e))
      && (e >= 0 && nongreedy ==> forall p :: p < e ==> !Accepts(prog, env, st, p))
      && (e >= 0 && !nongreedy ==> forall p :: p > e ==> !Accepts(prog, env, st, p))
  {
    var d := Dead(prog, env, st, st);
    FirstAcceptHolds(prog, env, st, st, d);
    LastAcceptHolds(prog, env, st, st, d);
    forall p | Accepts(prog, env, st, p) ensures st <= p <= d {
      AcceptedInTime(prog, env, st, p);
    }
  }

  /** The outcome of a search in terms of the positions it tries. */
  ghost predicate Exact(prog: seq<Inst>, env: Env, nongreedy: bool, from: int, o: Outcome)
    requires 0 <= from <= |env.text|
  {
    if o.matchEnd == 0 then forall s :: Tried(prog, env, from, s) ==> NoMatchAt(prog, env, s)
    else
      && Tried(prog, env, from, o.matchStart) && Accepts(prog, env, o.matchStart, o.matchEnd - 1)
      && (forall s :: Tried(prog, env, from, s) && s < o.matchStart ==> NoMatchAt(prog, env, s))
      && (forall p :: (if nongreedy then p < o.matchEnd - 1 else p > o.matchEnd - 1) ==>
            !Accepts(prog, env, o.matchStart, p))
  }

  /** Every hit is a match in its real context, the longest from its start (the shortest if not
      greedy), at the first position tried that has one; a miss means no position tried has one. */
  lemma {:induction false} SearchExact(prog: seq<Inst>, env: Env, nongreedy: bool, from: int)
    requires ProgramOk(prog) && 0 <= from <= |env.text|
    ensures Exact(prog, env, nongreedy, from, Execution(prog, env, true, nongreedy, from))
    decreases |env.text| - from
  {
    var d := Dead(prog, env, from, from);
    AttemptExact(prog, env, nongreedy, from);
    if AttemptEnd(prog, env, nongreedy, from) >= 0 {
      forall s | Tried(prog, env, from, s) ensures from <= s {
        TriedAfter(prog, env, from, s);
      }
    } else if d < |env.text| {
      SearchExact(prog, env, nongreedy, NextStart(from, d));
    }
  }

  /** What a literal search reports, if the pattern as written starts as LeadOk asks. */
  lemma LiteralReported(text: string, input: string, icase: bool)
    requires SimpleMatch.WellEscaped(text) && NulFree(input)
    ensures LiteralSearch.LeadOk(icase, text) ==> LiteralSearch.RawSound(icase, text, input)
    ensures LiteralSearch.LeadOk(icase, text) && LiteralSearch.Repeats(icase, SimpleMatch.Unescape(text)) ==>
      LiteralSearch.RawExact(icase, text, input)
  {
    if LiteralSearch.LeadOk(icase, text) {
      LiteralSearch.HitSound(icase, text, input);
      if LiteralSearch.Repeats(icase, SimpleMatch.Unescape(text)) {
        LiteralSearch.RepeatingExact(icase, text, input);
      }
    }
  }

  /** rxvm_search: where the match starts and its last character, or 0 and two null pointers. */
  method Search(rx: Pattern, input: string, icase: bool, nongreedy: bool, multiline: bool)
    returns (ret: int, start: int, end: int)
    requires Usable(rx) && NulFree(input)
    ensures ret == 0 || ret == 1
    ensures rx.Exe? ==>
      var o := Execution(rx.prog, Env(input, icase, multiline), true, nongreedy, 0);
      && Exact(rx.prog, Env(input, icase, multiline), nongreedy, 0, o)
      && (ret == 1 <==> o.matchEnd != 0)
      && (ret == 1 ==> start == o.matchStart && end + 1 == o.matchEnd - 1)
    ensures rx.TextOnly? ==>
      match SimpleMatch.SearchRaw(icase, rx.text, input, 0, 0, 0)
      case NotFound => ret == 0
      case Found(s, e) => ret == 1 && start == s && end + 1 == e
    ensures rx.TextOnly? && LiteralSearch.LeadOk(icase, rx.text) && ret == 1 ==>
      var u := SimpleMatch.Unescape(rx.text); Occurs(icase, u, input, start) && end + 1 == start + |u|
    ensures rx.TextOnly? && LiteralSearch.LeadOk(icase, rx.text) ==>
      var u := SimpleMatch.Unescape(rx.text); LiteralSearch.Repeats(icase, u) ==>
        LiteralSearch.Leftmost(icase, u, input, if ret == 1 then start else -1)
  {
    var matchEnd;
    match rx {
      case TextOnly(text) =>
        var ok;
        ok, start, matchEnd := SimpleMatch.Run(text, input, icase, true);
        LiteralReported(text, input, icase);
      case Exe(prog) =>
        SearchExact(prog, Env(input, icase, multiline), nongreedy, 0);
        var tm := new Vm.Threads(prog, input, icase, nongreedy, multiline, true);
        var dead;
        ghost var steps;
        dead, steps := tm.Execute();
        start, matchEnd := tm.matchStart, tm.matchEnd;
    }
    if matchEnd == 0 {
      return 0, -1, -1;
    }
    ret, end := 1, matchEnd - 2;
  }

  /** The program of a sentence accepts what the sentence matches, wherever it stands. */
  lemma SentenceMeaning(re: Re, prog: seq<Inst>, env: Env, i: int, j: int)
    requires ReWritten(re) && Compilation.ReCounts(re) && Built(PrintRe(re)) == Ok(Exe(prog))
    ensures Accepts(prog, env, i, j) <==> MatchRe(re, env, i, j)
  {
    if AllLiterals(ReTokens(re)) {
      LiteralKept(re);
    } else {
      SentenceBuilt(re);
      ProgramMeaning(re, env, i, j);
      Stage2.CollapsePreserves(Link(ReCode(re) + [Match]), env, i, j);
    }
  }

  /** An expression of literals matches just where its literals occur. */
  lemma LiteralMeaning(re: Re, env: Env, i: int, j: int)
    requires ReWritten(re) && AllLiterals(ReTokens(re)) && 0 <= i <= |env.text|
    ensures Built(PrintRe(re)) == Ok(TextOnly(PrintRe(re))) && SimpleMatch.WellEscaped(PrintRe(re))
    ensures var u := SimpleMatch.Unescape(PrintRe(re));
      MatchRe(re, env, i, j) <==> Occurs(env.icase, u, env.text, i) && j == i + |u|
  {
    LiteralKept(re);
    if re.Union? {
      UnionNotLiteral(re.left, re.right);
    } else {
      LiteralsMatch(re.body, env, i, j);
    }
  }

  lemma HitAccepted(prog: seq<Inst>, env: Env, nongreedy: bool, o: Outcome)
    requires ProgramOk(prog) && o == Execution(prog, env, true, nongreedy, 0) && o.matchEnd != 0
    ensures Accepts(prog, env, o.matchStart, o.matchEnd - 1)
    ensures forall p :: (if nongreedy then p < o.matchEnd - 1 else p > o.matchEnd - 1) ==>
              !Accepts(prog, env, o.matchStart, p)
  {
    SearchExact(prog, env, nongreedy, 0);
  }

  /** A hit of the program of a sentence is a match of the sentence where it stands. */
  lemma HitIsMatch(re: Re, prog: seq<Inst>, env: Env, nongreedy: bool, o: Outcome)
    requires ReWritten(re) && Compilation.ReCounts(re) && Built(PrintRe(re)) == Ok(Exe(prog))
    requires o == Execution(prog, env, true, nongreedy, 0) && o.matchEnd != 0
    ensures MatchRe(re, env, o.matchStart, o.matchEnd - 1)
    ensures forall p :: (if nongreedy then p < o.matchEnd - 1 else p > o.matchEnd - 1) ==>
              !MatchRe(re, env, o.matchStart, p)
  {
    HitAccepted(prog, env, nongreedy, o);
    SentenceMeaning(re, prog, env, o.matchStart, o.matchEnd - 1);
    forall p | if nongreedy then p < o.matchEnd - 1 else p > o.matchEnd - 1
      ensures !MatchRe(re, env, o.matchStart, p)
    {
      SentenceMeaning(re, prog, env, o.matchStart, p);
    }
  }

  // ----- a match that is missed -----

  /** The program of aab+, as AabBuilt says. */
  const AAB := [Char('a'), Char('a'), Char('b'), Branch(2, 4), Match]

  /** c is written as text and its code is code. */
  ghost predicate Gives(c: Cat, code: seq<Inst>, text: string) {
    CatWritten(c) && Compilation.CatCounts(c) && CatCode(c) == code && PrintCat(c) == text
  }

  lemma NotOnlyZero(q: Quant)
    requires q == Once || q == OneOrMore
    ensures QuantWritten(q) && !OnlyZero(q)
  {
  }

  lemma LetterMore(init: Cat, c: char, code: seq<Inst>, text: string, code': seq<Inst>, text': string)
    requires Gives(init, code, text) && ChrWritten(Chr(c, false))
    requires code' == code + [Char(c)] && text' == text + [c]
    ensures Gives(Then(init, Letter(c, Once)), code', text')
  {
    var b := Letter(c, Once);
    assert b.quant == Once && b.elem == Lit(Chr(c, false));
    assert BasicWritten(b) && Compilation.ElemCounts(b.elem);
    NotOnlyZero(b.quant);
    assert Compilation.BasicCounts(b);
    assert ElemCode(b.elem) == [Char(c)] && PrintElem(b.elem) == [c] && PrintQuant(b.quant) == "";
    assert [c] + "" == [c];
    assert BasicCode(b) == [Char(c)] && PrintBasic(b) == [c];
    assert CatCode(Then(init, b)) == code + BasicCode(b);
  }

  lemma LetterPlus(init: Cat, c: char, code: seq<Inst>, text: string, code': seq<Inst>, text': string)
    requires Gives(init, code, text) && ChrWritten(Chr(c, false))
    requires code' == code + [Char(c), Branch(-1, 1)] && text' == text + [c, '+']
    ensures Gives(Then(init, Letter(c, OneOrMore)), code', text')
    ensures !AllLiterals(CatTokens(Then(init, Letter(c, OneOrMore))))
  {
    var b := Letter(c, OneOrMore);
    assert b.quant == OneOrMore && b.elem == Lit(Chr(c, false));
    assert BasicWritten(b) && Compilation.ElemCounts(b.elem);
    NotOnlyZero(b.quant);
    assert Compilation.BasicCounts(b);
    assert ElemCode(b.elem) == [Char(c)] && PrintElem(b.elem) == [c] && PrintQuant(b.quant) == "+";
    assert [c] + "+" == [c, '+'];
    assert BasicCode(b) == [Char(c), Branch(-1, 1)] && PrintBasic(b) == [c, '+'];
    assert CatCode(Then(init, b)) == code + BasicCode(b);
    assert BasicTokens(b) == [Lexer.Literal(c), Lexer.One];
    assert (CatTokens(init) + BasicTokens(b))[|CatTokens(init)| + 1] == Lexer.One;
  }

  lemma LinkedJumps(code: seq<Inst>, prog: seq<Inst>)
    requires prog == Link(code) && forall k :: 0 <= k < |code| ==> !code[k].Jmp?
    ensures forall k :: 0 <= k < |prog| ==> !prog[k].Jmp?
  {
    forall k | 0 <= k < |prog| ensures !prog[k].Jmp? {
      assert !code[k].Jmp?;
    }
  }

  /** A sentence whose code has no jumps is compiled to just that code, linked. */
  lemma JumpFreeBuilt(c: Cat, code: seq<Inst>, text: string, prog: seq<Inst>)
    requires Gives(c, code, text) && !AllLiterals(CatTokens(c)) && prog == Link(code + [Match])
    requires forall k :: 0 <= k < |code| ==> !code[k].Jmp?
    ensures Built(text) == Ok(Exe(prog))
  {
    SentenceBuilt(Simple(c));
    LinkedJumps(code + [Match], prog);
    Stage2.CollapseNone(prog);
  }

  /** What the pattern aab+ compiles to, with any two characters for a and b. */
  lemma AabBuilt(a: char, b: char)
    requires ChrWritten(Chr(a, false)) && ChrWritten(Chr(b, false))
    ensures Built([a, a, b, '+']) == Ok(Exe([Char(a), Char(a), Char(b), Branch(2, 4), Match]))
  {
    var one := Then(Empty, Letter(a, Once));
    var two := Then(one, Letter(a, Once));
    var code, prog := [Char(a), Char(a), Char(b), Branch(-1, 1)], [Char(a), Char(a), Char(b), Branch(2, 4), Match];
    LetterMore(Empty, a, [], "", [Char(a)], [a]);
    LetterMore(one, a, [Char(a)], [a], [Char(a), Char(a)], [a, a]);
    LetterPlus(two, b, [Char(a), Char(a)], [a, a], code, [a, a, b, '+']);
    assert Link(code + [Match]) == prog;
    JumpFreeBuilt(Then(two, Letter(b, OneOrMore)), code, [a, a, b, '+'], prog);
  }

  /** A run of that program that has read at most two characters has executed just those. */
  lemma {:induction false} AabRuns(env: Env, st: int, pc: int, p: int, k: nat)
    requires Run(AAB, env, 0, 5, 0, st, pc, p, k)
    ensures (pc == p - st && pc <= 2) || (pc >= 2 && p - st >= 3)
    ensures pc >= 1 ==> 0 <= st < |env.text| && CharEq(env.icase, env.text[st], 'a')
    ensures pc >= 2 ==> st + 1 < |env.text| && CharEq(env.icase, env.text[st + 1], 'a')
    ensures p - st >= 3 ==> st + 2 < |env.text| && CharEq(env.icase, env.text[st + 2], 'b')
    decreases k
  {
    if k != 0 {
      var m, q := RunLast(AAB, env, 0, 5, 0, st, pc, p, k);
      AabRuns(env, st, m, q, k - 1);
    }
  }

  lemma AabReads(env: Env, st: int, n: nat)
    requires 0 <= st && n <= 2 && st + n <= |env.text|
    requires forall j :: st <= j < st + n ==> CharEq(env.icase, env.text[j], 'a')
    ensures n in ThreadsAt(AAB, env, st, st + n)
    decreases n
  {
    if n == 0 {
      assert Run(AAB, env, 0, 5, 0, st, 0, st, 0);
    } else {
      AabReads(env, st, n - 1);
      ReachStep(AAB, env, st, n - 1, st + n - 1, n, st + n);
    }
  }

  /** "aaab" holds a match of aab+ that starts at 1, but the attempt at 0 dies at 2 and the search
      goes on from there: it reports nothing. */
  lemma SearchSkips()
    ensures var env := Env("aaab", false, false);
      && Accepts(AAB, env, 1, 4)
      && Execution(AAB, env, true, false, 0).matchEnd == 0
  {
    var env := Env("aaab", false, false);
    AabReads(env, 1, 2);
    ReachStep(AAB, env, 1, 2, 3, 3, 4);
    ReachStep(AAB, env, 1, 3, 4, 4, 4);
    SkipsFrom(env);
  }

  lemma AabDead(env: Env, st: int, d: int)
    requires env == Env("aaab", false, false) && (st, d) in {(0, 2), (2, 3), (3, 3), (4, 4)}
    ensures Dead(AAB, env, st, st) == d && AttemptEnd(AAB, env, false, st) == -1
  {
    forall q | st <= q < d ensures Alive(AAB, env, st, q) {
      AabReads(env, st, q - st);
      assert Reads(AAB, env, q, q - st);
    }
    DeadFrom(AAB, env, st, st, d);
    forall pc | d < 4 && pc in ThreadsAt(AAB, env, st, d) ensures !Reads(AAB, env, d, pc) {
      var k: nat :| Run(AAB, env, 0, 5, 0, st, pc, d, k);
      AabRuns(env, st, pc, d, k);
    }
    LastAcceptHolds(AAB, env, st, st, d);
    forall p | Accepts(AAB, env, st, p) ensures false {
      var k: nat :| Run(AAB, env, 0, 5, 0, st, 4, p, k);
      AabRuns(env, st, 4, p, k);
    }
  }

  lemma SkipsFrom(env: Env)
    requires env == Env("aaab", false, false)
    ensures Execution(AAB, env, true, false, 0).matchEnd == 0
  {
    AabDead(env, 0, 2);
    AabDead(env, 2, 3);
    AabDead(env, 3, 3);
    AabDead(env, 4, 4);
    assert Execution(AAB, env, true, false, 3) == Execution(AAB, env, true, false, 4);
    assert Execution(AAB, env, true, false, 0) == Execution(AAB, env, true, false, 2);
  }
}
