/** When the search by program finds the leftmost match. A failed attempt goes on where it died,
    so start positions are skipped (Searching.dfy); here are conditions on the program alone under
    which nothing is missed. */
module LeftmostSearch {
  import opened Regex
  import opened Program
  import opened CodeMeaning
  import opened ThreadSets
  import opened Sentences
  import opened Context
  import opened Rxvm
  import opened Searching
  import Compilation

  /** What a caller expects of a search that begins at position from: no match starts before the
      one reported, and nothing is reported only if there is none. */
  ghost predicate LeftmostFrom(prog: seq<Inst>, env: Env, nongreedy: bool, from: int)
    requires 0 <= from <= |env.text|
  {
    var o := Execution(prog, env, true, nongreedy, from);
    forall s :: from <= s <= |env.text| && (o.matchEnd == 0 || s < o.matchStart) ==> NoMatchAt(prog, env, s)
  }

  // ----- what an attempt that fails leaves out -----

  /** The positions between the start of an attempt that died at d and where the search goes on. */
  predicate Skipped(env: Env, st: int, d: int, s: int) {
    st < s <= |env.text| && (s < d || d == |env.text|)
  }

  ghost predicate NoneSkipped(prog: seq<Inst>, env: Env, nongreedy: bool, st: int)
    requires 0 <= st <= |env.text|
  {
    AttemptEnd(prog, env, nongreedy, st) == -1 ==>
      forall s :: Skipped(env, st, Dead(prog, env, st, st), s) ==> NoMatchAt(prog, env, s)
  }

  /** If no failed attempt skips a match, the search is leftmost. */
  lemma {:induction false} NothingMissed(prog: seq<Inst>, env: Env, nongreedy: bool, from: int)
    requires ProgramOk(prog) && 0 <= from <= |env.text|
    requires forall st :: 0 <= st <= |env.text| ==> NoneSkipped(prog, env, nongreedy, st)
    ensures LeftmostFrom(prog, env, nongreedy, from)
    decreases |env.text| - from
  {
    var d := Dead(prog, env, from, from);
    assert NoneSkipped(prog, env, nongreedy, from);
    AttemptExact(prog, env, nongreedy, from);
    if AttemptEnd(prog, env, nongreedy, from) == -1 && d < |env.text| {
      NothingMissed(prog, env, nongreedy, NextStart(from, d));
    }
  }

  lemma {:induction false} AliveUntil(prog: seq<Inst>, env: Env, st: int, p: int, q: int)
    requires p <= |env.text| && p <= q < Dead(prog, env, st, p)
    ensures Alive(prog, env, st, q)
    decreases q - p
  {
    if p < q { AliveUntil(prog, env, st, p + 1, q); }
  }

  // ----- a condition that is enough, anchors or not -----

  /** Whatever the instruction may lead to without reading is in the set. */
  predicate StaysIn(inst: Inst, pc: int, s: set<int>) {
    match inst
    case Branch(x, y) => x in s && y in s
    case Jmp(x) => x in s
    case StartOfLine => pc + 1 in s
    case EndOfLine => pc + 1 in s
    case _ => true
  }

  predicate ClosedUnder(prog: seq<Inst>, s: set<int>) {
    forall pc :: pc in s && 0 <= pc < |prog| ==> StaysIn(prog[pc], pc, s)
  }

  /** Two sets of instructions that anyone can write down by following targets: where runs can be
      before they read, and after. No run ends before it reads, and no character is read both by
      an instruction of the one and by one of the other. */
  ghost predicate Apart(prog: seq<Inst>, icase: bool, first: set<int>, later: set<int>) {
    && 0 in first && ClosedUnder(prog, first) && ClosedUnder(prog, later)
    && (forall pc, c :: pc in first + later && 0 <= pc < |prog| && Consumes(prog[pc], icase, c) ==> pc + 1 in later)
    && (forall pc :: pc in first && 0 <= pc < |prog| ==> prog[pc] != Match)
    && (forall pc, pc', c :: pc in first && pc' in later && 0 <= pc < |prog| && 0 <= pc' < |prog| ==>
          !(Consumes(prog[pc], icase, c) && Consumes(prog[pc'], icase, c)))
  }

  lemma EpsilonIn(prog: seq<Inst>, env: Env, p: int, s: set<int>, m: int, pc: int)
    requires ClosedUnder(prog, s) && m in s && Epsilon(prog, env, p, m, pc)
    ensures pc in s
  {
    assert StaysIn(prog[m], m, s);
  }

  /** Where a run is, it came by reading or not. */
  lemma {:induction false} RunApart(prog: seq<Inst>, env: Env, first: set<int>, later: set<int>,
                                    st: int, pc: int, p: int, k: nat)
    requires Apart(prog, env.icase, first, later) && Run(prog, env, 0, |prog|, 0, st, pc, p, k)
    ensures p >= st && if p == st then pc in first else pc in later
    decreases k
  {
    if k != 0 {
      var m, q := RunLast(prog, env, 0, |prog|, 0, st, pc, p, k);
      RunApart(prog, env, first, later, st, m, q, k - 1);
      assert m in first + later;
      if p == q + 1 {
        assert Consumes(prog[m], env.icase, env.text[q]);
      } else {
        EpsilonIn(prog, env, p, if p == st then first else later, m, pc);
      }
    }
  }

  /** A run that gets on has read the first character by an instruction of the first set. */
  lemma {:induction false} FirstRead(prog: seq<Inst>, env: Env, first: set<int>, later: set<int>,
                                     st: int, pc: int, p: int, k: nat) returns (a: int)
    requires Apart(prog, env.icase, first, later) && Run(prog, env, 0, |prog|, 0, st, pc, p, k) && p > st
    ensures a in first && Reads(prog, env, st, a)
    decreases k
  {
    var m, q := RunLast(prog, env, 0, |prog|, 0, st, pc, p, k);
    if q > st {
      a := FirstRead(prog, env, first, later, st, m, q, k - 1);
    } else {
      RunApart(prog, env, first, later, st, m, q, k - 1);
      a := m;
    }
  }

  lemma ApartSkips(prog: seq<Inst>, env: Env, nongreedy: bool, first: set<int>, later: set<int>, st: int)
    requires ProgramOk(prog) && Apart(prog, env.icase, first, later) && 0 <= st <= |env.text|
    ensures NoneSkipped(prog, env, nongreedy, st)
  {
    var d := Dead(prog, env, st, st);
    forall s, p | Skipped(env, st, d, s) && Accepts(prog, env, s, p) ensures false {
      var pc :| 0 <= pc < |prog| && prog[pc] == Match && Reach(prog, env, s, pc, p);
      var k: nat :| Run(prog, env, 0, |prog|, 0, s, pc, p, k);
      RunApart(prog, env, first, later, s, pc, p, k);
      var a := FirstRead(prog, env, first, later, s, pc, p, k);
      assert s < |env.text|;
      AliveUntil(prog, env, st, st, s);
      var b :| b in ThreadsAt(prog, env, st, s) && Reads(prog, env, s, b);
      var n: nat :| Run(prog, env, 0, |prog|, 0, st, b, s, n);
      RunApart(prog, env, first, later, st, b, s, n);
    }
  }

  /** If no character that starts a match can also be read later on, the search is leftmost in
      every text, with any flags and from anywhere. */
  lemma ApartLeftmost(prog: seq<Inst>, env: Env, nongreedy: bool, first: set<int>, later: set<int>, from: int)
    requires ProgramOk(prog) && Apart(prog, env.icase, first, later) && 0 <= from <= |env.text|
    ensures LeftmostFrom(prog, env, nongreedy, from)
  {
    forall st | 0 <= st <= |env.text| ensures NoneSkipped(prog, env, nongreedy, st) {
      ApartSkips(prog, env, nongreedy, first, later, st);
    }
    NothingMissed(prog, env, nongreedy, from);
  }

  /** Leftmost in terms of the sentence a program was compiled from. */
  lemma LeftmostMeans(re: Re, prog: seq<Inst>, env: Env, nongreedy: bool, o: Outcome, s: int, p: int)
    requires ReWritten(re) && Compilation.ReCounts(re) && Built(PrintRe(re)) == Ok(Exe(prog))
    requires LeftmostFrom(prog, env, nongreedy, 0) && o == Execution(prog, env, true, nongreedy, 0)
    requires 0 <= s <= |env.text| && MatchRe(re, env, s, p)
    ensures o.matchEnd != 0 && o.matchStart <= s && MatchRe(re, env, o.matchStart, o.matchEnd - 1)
  {
    SentenceMeaning(re, prog, env, s, p);
    assert !NoMatchAt(prog, env, s);
    HitIsMatch(re, prog, env, nongreedy, o);
  }

  /** So the leftmost match of a sentence is found if its program keeps the two apart. */
  lemma ApartSentence(re: Re, prog: seq<Inst>, env: Env, nongreedy: bool, first: set<int>, later: set<int>,
                      o: Outcome, s: int, p: int)
    requires ReWritten(re) && Compilation.ReCounts(re) && Built(PrintRe(re)) == Ok(Exe(prog))
    requires Apart(prog, env.icase, first, later) && o == Execution(prog, env, true, nongreedy, 0)
    requires 0 <= s <= |env.text| && MatchRe(re, env, s, p)
    ensures o.matchEnd != 0 && o.matchStart <= s && MatchRe(re, env, o.matchStart, o.matchEnd - 1)
  {
    ApartLeftmost(prog, env, nongreedy, first, later, 0);
    LeftmostMeans(re, prog, env, nongreedy, o, s, p);
  }

  // ----- the exact condition, without anchors -----

  /** The program accepts the word as a whole. */
  ghost predicate Word(prog: seq<Inst>, icase: bool, w: string) {
    Accepts(prog, Env(w, icase, false), 0, |w|)
  }

  /** Some run of the program reads all of the word. */
  ghost predicate Viable(prog: seq<Inst>, icase: bool, w: string) {
    ThreadsAt(prog, Env(w, icase, false), 0, |w|) != {}
  }

  /** y is a word that overtakes an attempt begun with x in front of it: the attempt gets into y,
      but no beginning of x and y together is a word. */
  ghost predicate Overtakes(prog: seq<Inst>, icase: bool, x: string, y: string) {
    && x != "" && y != "" && NulFree(x + y) && Word(prog, icase, y) && Viable(prog, icase, x + [y[0]])
    && forall n :: 0 <= n <= |x + y| ==> !Word(prog, icase, (x + y)[..n])
  }

  predicate SameChar(e1: Env, e2: Env, shift: int, q: int) {
    0 <= q < |e1.text| && 0 <= q + shift < |e2.text| && e1.text[q] == e2.text[q + shift]
  }

  /** Without anchors a run depends on nothing but the characters it reads. */
  lemma {:induction false} RunMoves(prog: seq<Inst>, e1: Env, e2: Env, shift: int,
                                    a: int, i: int, b: int, j: int, k: nat)
    requires ProgramOk(prog) && AnchorFree(prog) && e1.icase == e2.icase && 0 <= a < |prog| && 0 <= i
    requires Run(prog, e1, 0, |prog|, a, i, b, j, k)
    requires forall q :: i <= q < j ==> SameChar(e1, e2, shift, q)
    ensures Run(prog, e2, 0, |prog|, a, i + shift, b, j + shift, k)
    decreases k
  {
    if k != 0 {
      var m, q :| Step(prog, e1, a, i, m, q) && Run(prog, e1, 0, |prog|, m, q, b, j, k - 1);
      ProgramStep(prog, e1, a, i, m, q);
      RunStays(prog, e1, m, q, b, j, k - 1);
      RunMoves(prog, e1, e2, shift, m, q, b, j, k - 1);
      assert q == i + 1 ==> SameChar(e1, e2, shift, i);
      assert Step(prog, e2, a, i + shift, m, q + shift);
      RunStep(prog, e2, 0, |prog|, a, i + shift, m, q + shift, b, j + shift, k - 1);
    }
  }

  /** Reaching an instruction between two positions is a matter of the stretch between them. */
  lemma ReachWord(prog: seq<Inst>, env: Env, st: int, pc: int, p: int)
    requires ProgramOk(prog) && AnchorFree(prog) && 0 <= st <= p <= |env.text|
    ensures Reach(prog, env, st, pc, p) <==> Reach(prog, Env(env.text[st..p], env.icase, false), 0, pc, p - st)
  {
    var w := Env(env.text[st..p], env.icase, false);
    if Reach(prog, env, st, pc, p) {
      var k: nat :| Run(prog, env, 0, |prog|, 0, st, pc, p, k);
      RunMoves(prog, env, w, -st, 0, st, pc, p, k);
    }
    if Reach(prog, w, 0, pc, p - st) {
      var k: nat :| Run(prog, w, 0, |prog|, 0, 0, pc, p - st, k);
      RunMoves(prog, w, env, st, 0, 0, pc, p - st, k);
    }
  }

  lemma AcceptsWord(prog: seq<Inst>, env: Env, st: int, p: int)
    requires ProgramOk(prog) && AnchorFree(prog) && 0 <= st <= p <= |env.text|
    ensures Accepts(prog, env, st, p) <==> Word(prog, env.icase, env.text[st..p])
  {
    var w := Env(env.text[st..p], env.icase, false);
    forall pc ensures Reach(prog, env, st, pc, p) <==> Reach(prog, w, 0, pc, p - st) {
      ReachWord(prog, env, st, pc, p);
    }
  }

  lemma EmptyMoves(prog: seq<Inst>, env: Env, s: int, st: int)
    requires ProgramOk(prog) && AnchorFree(prog) && 0 <= st <= |env.text| && 0 <= s <= |env.text|
    ensures Accepts(prog, env, s, s) <==> Accepts(prog, env, st, st)
  {
    AcceptsWord(prog, env, s, s);
    AcceptsWord(prog, env, st, st);
    assert env.text[s..s] == env.text[st..st];
  }

  lemma ThreadsViable(prog: seq<Inst>, env: Env, st: int, p: int)
    requires ProgramOk(prog) && AnchorFree(prog) && 0 <= st <= p <= |env.text|
    ensures ThreadsAt(prog, env, st, p) != {} <==> Viable(prog, env.icase, env.text[st..p])
  {
    var w := Env(env.text[st..p], env.icase, false);
    forall pc ensures pc in ThreadsAt(prog, env, st, p) <==> pc in ThreadsAt(prog, w, 0, p - st) {
      ReachWord(prog, env, st, pc, p);
    }
    assert ThreadsAt(prog, env, st, p) == ThreadsAt(prog, w, 0, p - st);
  }

  /** A run that is past a character has read it. */
  lemma {:induction false} LastRead(prog: seq<Inst>, env: Env, st: int, pc: int, p: int, k: nat)
    requires ProgramOk(prog) && st < p && Run(prog, env, 0, |prog|, 0, st, pc, p, k)
    ensures Alive(prog, env, st, p - 1)
    decreases k
  {
    var m, q := RunLast(prog, env, 0, |prog|, 0, st, pc, p, k);
    if q == p {
      LastRead(prog, env, st, m, p, k - 1);
    } else {
      assert m in ThreadsAt(prog, env, st, q) && Reads(prog, env, q, m);
    }
  }

  lemma AliveIs(prog: seq<Inst>, env: Env, st: int, q: int)
    requires ProgramOk(prog) && 0 <= st <= q < |env.text|
    ensures Alive(prog, env, st, q) <==> ThreadsAt(prog, env, st, q + 1) != {}
  {
    if Alive(prog, env, st, q) {
      var pc :| pc in ThreadsAt(prog, env, st, q) && Reads(prog, env, q, pc);
      ReachStep(prog, env, st, pc, q, pc + 1, q + 1);
      ProgramStep(prog, env, pc, q, pc + 1, q + 1);
      assert pc + 1 in ThreadsAt(prog, env, st, q + 1);
    }
    if ThreadsAt(prog, env, st, q + 1) != {} {
      var pc :| pc in ThreadsAt(prog, env, st, q + 1);
      var k: nat :| Run(prog, env, 0, |prog|, 0, st, pc, q + 1, k);
      LastRead(prog, env, st, pc, q + 1, k);
    }
  }

  lemma {:induction false} AliveBefore(prog: seq<Inst>, env: Env, st: int, q: int, p: int)
    requires ProgramOk(prog) && 0 <= st <= q <= p < |env.text| && Alive(prog, env, st, p)
    ensures Alive(prog, env, st, q)
    decreases p - q
  {
    if q < p {
      var pc :| pc in ThreadsAt(prog, env, st, p) && Reads(prog, env, p, pc);
      AliveIs(prog, env, st, p - 1);
      AliveBefore(prog, env, st, q, p - 1);
    }
  }

  /** A match that a failed attempt skips is a word that overtakes it. */
  lemma SkippedOvertakes(prog: seq<Inst>, env: Env, nongreedy: bool, st: int, s: int, p: int)
    requires ProgramOk(prog) && AnchorFree(prog) && NulFree(env.text) && 0 <= st <= |env.text|
    requires AttemptEnd(prog, env, nongreedy, st) == -1
    requires Skipped(env, st, Dead(prog, env, st, st), s) && Accepts(prog, env, s, p)
    ensures s <= p <= |env.text| && Overtakes(prog, env.icase, env.text[st..s], env.text[s..p])
  {
    AttemptExact(prog, env, nongreedy, st);
    AcceptedInTime(prog, env, s, p);
    AcceptsWord(prog, env, s, p);
    var x, y := env.text[st..s], env.text[s..p];
    EmptyMoves(prog, env, s, st);
    AliveUntil(prog, env, st, st, s);
    AliveIs(prog, env, st, s);
    ThreadsViable(prog, env, st, s + 1);
    assert env.text[st..s + 1] == x + [y[0]] && env.text[st..p] == x + y;
    forall n | 0 <= n <= |x + y| ensures !Word(prog, env.icase, (x + y)[..n]) {
      AcceptsWord(prog, env, st, st + n);
      assert env.text[st..st + n] == (x + y)[..n];
    }
  }

  /** A word that overtakes an attempt is a match that the search misses. */
  lemma OvertakenMissed(prog: seq<Inst>, icase: bool, x: string, y: string)
    requires ProgramOk(prog) && AnchorFree(prog) && Overtakes(prog, icase, x, y)
    ensures !LeftmostFrom(prog, Env(x + y, icase, false), false, 0)
  {
    var env := Env(x + y, icase, false);
    OvertakenAttempt(prog, env, x, y);
    var d := Dead(prog, env, 0, 0);
    AcceptsWord(prog, env, |x|, |x + y|);
    assert (x + y)[|x|..|x + y|] == y;
    assert !NoMatchAt(prog, env, |x|);
    if d < |env.text| {
      SearchExact(prog, env, false, d);
      var o := Execution(prog, env, true, false, d);
      if o.matchEnd != 0 { TriedAfter(prog, env, d, o.matchStart); }
    }
  }

  lemma OvertakenAttempt(prog: seq<Inst>, env: Env, x: string, y: string)
    requires ProgramOk(prog) && AnchorFree(prog) && Overtakes(prog, env.icase, x, y) && env.text == x + y
    ensures AttemptEnd(prog, env, false, 0) == -1 && Dead(prog, env, 0, 0) > |x|
  {
    AttemptExact(prog, env, false, 0);
    forall p | 0 <= p <= |env.text| ensures !Accepts(prog, env, 0, p) {
      AcceptsWord(prog, env, 0, p);
      assert env.text[0..p] == (x + y)[..p];
    }
    var e := AttemptEnd(prog, env, false, 0);
    assert e >= 0 ==> Accepts(prog, env, 0, e);
    if e >= 0 { AcceptedInTime(prog, env, 0, e); }
    assert e == -1;
    ThreadsViable(prog, env, 0, |x| + 1);
    assert env.text[0..|x| + 1] == x + [y[0]];
    AliveIs(prog, env, 0, |x|);
    forall q | 0 <= q < |x| + 1 ensures Alive(prog, env, 0, q) {
      AliveBefore(prog, env, 0, q, |x|);
    }
    DeadFrom(prog, env, 0, 0, |x| + 1);
    assert Dead(prog, env, 0, |x| + 1) > |x|;
  }

  /** The search by an anchor-free program is leftmost in every text exactly when no word
      overtakes an attempt. */
  lemma LeftmostExact(prog: seq<Inst>, icase: bool)
    requires ProgramOk(prog) && AnchorFree(prog)
    ensures (forall text, multiline, nongreedy | NulFree(text) ::
               LeftmostFrom(prog, Env(text, icase, multiline), nongreedy, 0)) <==>
            forall x, y :: !Overtakes(prog, icase, x, y)
  {
    if x, y :| Overtakes(prog, icase, x, y) {
      OvertakenMissed(prog, icase, x, y);
    } else {
      forall text, multiline, nongreedy | NulFree(text)
        ensures LeftmostFrom(prog, Env(text, icase, multiline), nongreedy, 0)
      {
        NoneOvertakes(prog, Env(text, icase, multiline), nongreedy);
      }
    }
  }

  lemma NoneOvertakes(prog: seq<Inst>, env: Env, nongreedy: bool)
    requires ProgramOk(prog) && AnchorFree(prog) && NulFree(env.text)
    requires forall x, y :: !Overtakes(prog, env.icase, x, y)
    ensures LeftmostFrom(prog, env, nongreedy, 0)
  {
    forall st | 0 <= st <= |env.text| ensures NoneSkipped(prog, env, nongreedy, st) {
      if AttemptEnd(prog, env, nongreedy, st) == -1 {
        forall s, p | Skipped(env, st, Dead(prog, env, st, st), s) && Accepts(prog, env, s, p) ensures false {
          SkippedOvertakes(prog, env, nongreedy, st, s, p);
        }
      }
    }
    NothingMissed(prog, env, nongreedy, 0);
  }
}
