/** The exact condition of LeftmostSearch.dfy as something to be checked on the program: the race
    between an attempt and a run that starts behind it, played on sets of instructions. */
module SearchRace {
  import opened Regex
  import opened Program
  import opened CodeMeaning
  import opened ThreadSets
  import opened LeftmostSearch

  /** k branches and jumps lead from a to b. */
  ghost predicate Leads(prog: seq<Inst>, a: int, b: int, k: nat)
    decreases k
  {
    if k == 0 then a == b
    else exists m :: Hop(prog, a, m) && Leads(prog, m, b, k - 1)
  }

  /** Some number of them. */
  ghost predicate Hops(prog: seq<Inst>, a: int, b: int) {
    exists k: nat :: Leads(prog, a, b, k)
  }

  predicate Hop(prog: seq<Inst>, a: int, b: int) {
    0 <= a < |prog| && match prog[a]
                       case Branch(x, y) => b == x || b == y
                       case Jmp(x) => b == x
                       case _ => false
  }

  /** Where a program is before it reads. */
  ghost function Begin(prog: seq<Inst>): set<int> {
    set b | 0 <= b < |prog| && Hops(prog, 0, b)
  }

  /** The instruction a reads c, and after that the program can be at b. */
  ghost predicate ReadTo(prog: seq<Inst>, icase: bool, a: int, c: char, b: int) {
    0 <= a < |prog| && Consumes(prog[a], icase, c) && Hops(prog, a + 1, b)
  }

  ghost predicate ReadFrom(prog: seq<Inst>, icase: bool, s: set<int>, c: char, b: int) {
    exists a :: a in s && ReadTo(prog, icase, a, c, b)
  }

  /** Where it is after reading c from one of the instructions of a set. */
  ghost function After(prog: seq<Inst>, icase: bool, s: set<int>, c: char): set<int> {
    set b | 0 <= b < |prog| && ReadFrom(prog, icase, s, c, b)
  }

  /** Where it is after reading a word. */
  ghost function Threads(prog: seq<Inst>, icase: bool, w: string): set<int> {
    ThreadsAt(prog, Env(w, icase, false), 0, |w|)
  }

  lemma {:induction false} HopsReach(prog: seq<Inst>, env: Env, st: int, a: int, b: int, p: int, k: nat)
    requires Reach(prog, env, st, a, p) && Leads(prog, a, b, k)
    ensures Reach(prog, env, st, b, p)
    decreases k
  {
    if k != 0 {
      var m :| Hop(prog, a, m) && Leads(prog, m, b, k - 1);
      ReachStep(prog, env, st, a, p, m, p);
      HopsReach(prog, env, st, m, b, p, k - 1);
    }
  }

  lemma {:induction false} LeadsOn(prog: seq<Inst>, a: int, m: int, b: int, k: nat)
    requires Leads(prog, a, m, k) && Hop(prog, m, b)
    ensures Leads(prog, a, b, k + 1)
    decreases k
  {
    if k == 0 {
      assert Leads(prog, b, b, 0);
    } else {
      var m1 :| Hop(prog, a, m1) && Leads(prog, m1, m, k - 1);
      LeadsOn(prog, m1, m, b, k - 1);
    }
  }

  /** A run without anchors: hops from the beginning, or hops after the last read. */
  lemma {:induction false} RunHops(prog: seq<Inst>, env: Env, pc: int, p: int, n: nat)
    requires ProgramOk(prog) && AnchorFree(prog) && Run(prog, env, 0, |prog|, 0, 0, pc, p, n)
    ensures p >= 0 && 0 <= pc < |prog|
    ensures p == 0 ==> Hops(prog, 0, pc)
    ensures p > 0 ==>
      p <= |env.text| && ReadFrom(prog, env.icase, ThreadsAt(prog, env, 0, p - 1), env.text[p - 1], pc)
    decreases n
  {
    RunStays(prog, env, 0, 0, pc, p, n);
    if n == 0 {
      assert Leads(prog, 0, 0, 0);
    } else {
      var m, q := RunLast(prog, env, 0, |prog|, 0, 0, pc, p, n);
      RunHops(prog, env, m, q, n - 1);
      if q == p - 1 {
        assert m in ThreadsAt(prog, env, 0, q);
        assert Leads(prog, m + 1, pc, 0);
        assert ReadTo(prog, env.icase, m, env.text[q], pc);
      } else {
        assert Hop(prog, m, pc);
        if p == 0 {
          var k: nat :| Leads(prog, 0, m, k);
          LeadsOn(prog, 0, m, pc, k);
        } else {
          var a :| a in ThreadsAt(prog, env, 0, p - 1) && ReadTo(prog, env.icase, a, env.text[p - 1], m);
          var k: nat :| Leads(prog, a + 1, m, k);
          LeadsOn(prog, a + 1, m, pc, k);
          assert ReadTo(prog, env.icase, a, env.text[p - 1], pc);
        }
      }
    }
  }

  lemma ThreadsNone(prog: seq<Inst>, icase: bool)
    requires ProgramOk(prog) && AnchorFree(prog)
    ensures Threads(prog, icase, "") == Begin(prog)
  {
    var env := Env("", icase, false);
    forall pc | pc in Threads(prog, icase, "") ensures pc in Begin(prog) {
      var n: nat :| Run(prog, env, 0, |prog|, 0, 0, pc, 0, n);
      RunHops(prog, env, pc, 0, n);
    }
    forall pc | pc in Begin(prog) ensures pc in Threads(prog, icase, "") {
      var k: nat :| Leads(prog, 0, pc, k);
      assert Run(prog, env, 0, |prog|, 0, 0, 0, 0, 0);
      HopsReach(prog, env, 0, 0, pc, 0, k);
    }
  }

  lemma ThreadsMore(prog: seq<Inst>, icase: bool, w: string, c: char)
    requires ProgramOk(prog) && AnchorFree(prog)
    ensures Threads(prog, icase, w + [c]) == After(prog, icase, Threads(prog, icase, w), c)
  {
    var env := Env(w + [c], icase, false);
    ThreadsPrefix(prog, icase, w, c);
    forall pc | pc in Threads(prog, icase, w + [c]) ensures pc in After(prog, icase, Threads(prog, icase, w), c) {
      var n: nat :| Run(prog, env, 0, |prog|, 0, 0, pc, |w| + 1, n);
      RunHops(prog, env, pc, |w| + 1, n);
    }
    forall pc | pc in After(prog, icase, Threads(prog, icase, w), c) ensures pc in Threads(prog, icase, w + [c]) {
      var a :| a in Threads(prog, icase, w) && ReadTo(prog, icase, a, c, pc);
      var k: nat :| Leads(prog, a + 1, pc, k);
      ReachStep(prog, env, 0, a, |w|, a + 1, |w| + 1);
      HopsReach(prog, env, 0, a + 1, pc, |w| + 1, k);
    }
  }

  lemma ThreadsPrefix(prog: seq<Inst>, icase: bool, w: string, c: char)
    requires ProgramOk(prog) && AnchorFree(prog)
    ensures ThreadsAt(prog, Env(w + [c], icase, false), 0, |w|) == Threads(prog, icase, w)
  {
    var env := Env(w + [c], icase, false);
    assert env.text[0..|w|] == w;
    forall pc ensures Reach(prog, env, 0, pc, |w|) <==> Reach(prog, Env(w, icase, false), 0, pc, |w|) {
      ReachWord(prog, env, 0, pc, |w|);
    }
  }

  // ----- the race -----

  /** An attempt that has not matched, and a run that started behind it, if any. */
  datatype Race = Alone(ahead: set<int>) | Chased(ahead: set<int>, behind: int)

  /** A set of races that holds every race there is, checked one character at a time: in none of
      them the run behind is at Match. There are finitely many races over a program. */
  ghost predicate Guarded(prog: seq<Inst>, icase: bool, races: iset<Race>)
    requires |prog| > 0
  {
    var m := |prog| - 1;
    && (forall c :: c != '\0' && m !in After(prog, icase, Begin(prog), c) ==>
          Alone(After(prog, icase, Begin(prog), c)) in races)
    && (forall s, c :: c != '\0' && Alone(s) in races && m !in After(prog, icase, s, c) ==>
          Alone(After(prog, icase, s, c)) in races)
    && (forall s, c, b ::
          c != '\0' && Alone(s) in races && m !in After(prog, icase, s, c) && After(prog, icase, s, c) != {} &&
          b in After(prog, icase, Begin(prog), c) ==>
            Chased(After(prog, icase, s, c), b) in races)
    && (forall s, b, c, b' ::
          c != '\0' && Chased(s, b) in races && m !in After(prog, icase, s, c) && b' in After(prog, icase, {b}, c) ==>
            Chased(After(prog, icase, s, c), b') in races)
    && (forall s, b :: Chased(s, b) in races ==> b != m)
  }

  /** No beginning of w is a word of the program. */
  ghost predicate Unmatched(prog: seq<Inst>, icase: bool, w: string) {
    NulFree(w) && forall n :: 0 <= n <= |w| ==> !Word(prog, icase, w[..n])
  }

  lemma UnmatchedMore(prog: seq<Inst>, icase: bool, w: string, c: char)
    ensures Unmatched(prog, icase, w + [c]) <==>
            Unmatched(prog, icase, w) && c != '\0' && !Word(prog, icase, w + [c])
  {
    assert (w + [c])[..|w| + 1] == w + [c] && (w + [c])[|w|] == c;
    assert forall n :: 0 <= n <= |w| ==> (w + [c])[..n] == w[..n];
    assert forall k :: 0 <= k < |w| ==> (w + [c])[k] == w[k];
  }

  lemma LastChar(w: string) returns (v: string, c: char)
    requires w != ""
    ensures w == v + [c] && |v| < |w|
  {
    v, c := w[..|w| - 1], w[|w| - 1];
  }

  /** Every attempt that has read something and not matched is among the races ... */
  lemma {:induction false} AloneHeld(prog: seq<Inst>, icase: bool, races: iset<Race>, x: string)
    requires ProgramOk(prog) && AnchorFree(prog) && Guarded(prog, icase, races) && x != "" && Unmatched(prog, icase, x)
    ensures Alone(Threads(prog, icase, x)) in races
    decreases |x|
  {
    var w, c := LastChar(x);
    UnmatchedMore(prog, icase, w, c);
    ThreadsMore(prog, icase, w, c);
    if w == "" {
      ThreadsNone(prog, icase);
    } else {
      AloneHeld(prog, icase, races, w);
    }
  }

  ghost predicate Behind(prog: seq<Inst>, icase: bool, x: string, y: string) {
    x != "" && y != "" && Unmatched(prog, icase, x + y) && Threads(prog, icase, x + [y[0]]) != {}
  }

  lemma BehindLess(prog: seq<Inst>, icase: bool, x: string, v: string, c: char)
    requires Behind(prog, icase, x, v + [c])
    ensures Unmatched(prog, icase, x + v) && c != '\0' && !Word(prog, icase, x + v + [c])
    ensures v != "" ==> Behind(prog, icase, x, v)
  {
    assert x + (v + [c]) == x + v + [c];
    UnmatchedMore(prog, icase, x + v, c);
    assert v != "" ==> (v + [c])[0] == v[0];
  }

  /** ... and so is every such attempt with a run behind it. */
  lemma {:induction false} ChasedHeld(prog: seq<Inst>, icase: bool, races: iset<Race>, x: string, y: string, b: int)
    requires ProgramOk(prog) && AnchorFree(prog) && Guarded(prog, icase, races)
    requires Behind(prog, icase, x, y) && b in Threads(prog, icase, y)
    ensures Chased(Threads(prog, icase, x + y), b) in races
    decreases |y|
  {
    var v, c := LastChar(y);
    BehindLess(prog, icase, x, v, c);
    ThreadsMore(prog, icase, v, c);
    ThreadsMore(prog, icase, x + v, c);
    assert x + y == x + v + [c];
    if v == "" {
      ThreadsNone(prog, icase);
      assert x + v == x && y == [c];
      AloneHeld(prog, icase, races, x);
    } else {
      var a :| a in Threads(prog, icase, v) && ReadTo(prog, icase, a, c, b);
      ChasedHeld(prog, icase, races, x, v, a);
      assert b in After(prog, icase, {a}, c);
    }
  }

  lemma GuardedHolds(prog: seq<Inst>, icase: bool, races: iset<Race>, x: string, y: string)
    requires ProgramOk(prog) && AnchorFree(prog) && Guarded(prog, icase, races)
    ensures !Overtakes(prog, icase, x, y)
  {
    if Overtakes(prog, icase, x, y) {
      assert Unmatched(prog, icase, x + y);
      ChasedHeld(prog, icase, races, x, y, |prog| - 1);
    }
  }

  // ----- the races there are -----

  ghost predicate Raced(prog: seq<Inst>, icase: bool, r: Race) {
    match r
    case Alone(s) => exists x :: x != "" && Unmatched(prog, icase, x) && s == Threads(prog, icase, x)
    case Chased(s, b) =>
      exists x, y :: Behind(prog, icase, x, y) && s == Threads(prog, icase, x + y) && b in Threads(prog, icase, y)
  }

  ghost function Races(prog: seq<Inst>, icase: bool): iset<Race> {
    iset r: Race | Raced(prog, icase, r)
  }

  lemma AloneGoesOn(prog: seq<Inst>, icase: bool, x: string, c: char)
    requires ProgramOk(prog) && AnchorFree(prog) && Unmatched(prog, icase, x) && c != '\0'
    requires |prog| - 1 !in After(prog, icase, Threads(prog, icase, x), c)
    ensures Alone(After(prog, icase, Threads(prog, icase, x), c)) in Races(prog, icase)
  {
    ThreadsMore(prog, icase, x, c);
    UnmatchedMore(prog, icase, x, c);
  }

  lemma ChaseBegins(prog: seq<Inst>, icase: bool, x: string, c: char, b: int)
    requires ProgramOk(prog) && AnchorFree(prog) && x != "" && Unmatched(prog, icase, x) && c != '\0'
    requires |prog| - 1 !in After(prog, icase, Threads(prog, icase, x), c)
    requires After(prog, icase, Threads(prog, icase, x), c) != {} && b in After(prog, icase, Begin(prog), c)
    ensures Chased(After(prog, icase, Threads(prog, icase, x), c), b) in Races(prog, icase)
  {
    ThreadsMore(prog, icase, x, c);
    UnmatchedMore(prog, icase, x, c);
    ThreadsNone(prog, icase);
    ThreadsMore(prog, icase, "", c);
    assert "" + [c] == [c];
    assert Behind(prog, icase, x, [c]);
  }

  lemma ChaseGoesOn(prog: seq<Inst>, icase: bool, x: string, y: string, b: int, c: char, b': int)
    requires ProgramOk(prog) && AnchorFree(prog) && Behind(prog, icase, x, y) && b in Threads(prog, icase, y)
    requires c != '\0' && |prog| - 1 !in After(prog, icase, Threads(prog, icase, x + y), c)
    requires b' in After(prog, icase, {b}, c)
    ensures Chased(After(prog, icase, Threads(prog, icase, x + y), c), b') in Races(prog, icase)
  {
    ThreadsMore(prog, icase, x + y, c);
    UnmatchedMore(prog, icase, x + y, c);
    ThreadsMore(prog, icase, y, c);
    assert x + y + [c] == x + (y + [c]);
    assert (y + [c])[0] == y[0];
    assert b' in Threads(prog, icase, y + [c]);
    assert Behind(prog, icase, x, y + [c]);
  }

  lemma RacesGuarded(prog: seq<Inst>, icase: bool)
    requires ProgramOk(prog) && AnchorFree(prog) && |prog| - 1 !in Begin(prog)
    requires forall x, y :: !Overtakes(prog, icase, x, y)
    ensures Guarded(prog, icase, Races(prog, icase))
  {
    var m, races := |prog| - 1, Races(prog, icase);
    ThreadsNone(prog, icase);
    assert Unmatched(prog, icase, "");
    forall c | c != '\0' && m !in After(prog, icase, Begin(prog), c)
      ensures Alone(After(prog, icase, Begin(prog), c)) in races
    {
      AloneGoesOn(prog, icase, "", c);
    }
    forall s, c | c != '\0' && Alone(s) in races && m !in After(prog, icase, s, c)
      ensures Alone(After(prog, icase, s, c)) in races
    {
      var x :| x != "" && Unmatched(prog, icase, x) && s == Threads(prog, icase, x);
      AloneGoesOn(prog, icase, x, c);
    }
    forall s, c, b | c != '\0' && Alone(s) in races && m !in After(prog, icase, s, c)
        && After(prog, icase, s, c) != {} && b in After(prog, icase, Begin(prog), c)
      ensures Chased(After(prog, icase, s, c), b) in races
    {
      var x :| x != "" && Unmatched(prog, icase, x) && s == Threads(prog, icase, x);
      ChaseBegins(prog, icase, x, c, b);
    }
    forall s, b, c, b' | c != '\0' && Chased(s, b) in races && m !in After(prog, icase, s, c)
        && b' in After(prog, icase, {b}, c)
      ensures Chased(After(prog, icase, s, c), b') in races
    {
      var x, y :| Behind(prog, icase, x, y) && s == Threads(prog, icase, x + y) && b in Threads(prog, icase, y);
      ChaseGoesOn(prog, icase, x, y, b, c, b');
    }
    forall s, b | Chased(s, b) in races ensures b != m {
      var x, y :| Behind(prog, icase, x, y) && s == Threads(prog, icase, x + y) && b in Threads(prog, icase, y);
      assert !Overtakes(prog, icase, x, y);
    }
  }

  /** The search by an anchor-free program reports the leftmost match in every text, with any
      flags, exactly when the program matches the empty text or its races can be guarded. */
  lemma LeftmostGuarded(prog: seq<Inst>, icase: bool)
    requires ProgramOk(prog) && AnchorFree(prog)
    ensures (forall text, multiline, nongreedy | NulFree(text) ::
               LeftmostFrom(prog, Env(text, icase, multiline), nongreedy, 0)) <==>
            |prog| - 1 in Begin(prog) || exists races :: Guarded(prog, icase, races)
  {
    LeftmostExact(prog, icase);
    if |prog| - 1 in Begin(prog) {
      forall x, y ensures !Overtakes(prog, icase, x, y) {
        ThreadsNone(prog, icase);
        assert (x + y)[..0] == "";
      }
    } else if races :| Guarded(prog, icase, races) {
      forall x, y ensures !Overtakes(prog, icase, x, y) {
        GuardedHolds(prog, icase, races, x, y);
      }
    } else if forall x, y :: !Overtakes(prog, icase, x, y) {
      RacesGuarded(prog, icase);
    }
  }

  // ----- one program -----

  lemma PlusWord(prog: seq<Inst>, icase: bool, k: char, c: char)
    requires prog == [Char(k), Branch(0, 2), Match] && CharEq(icase, c, k)
    ensures Word(prog, icase, [c])
  {
    var env := Env([c], icase, false);
    assert Run(prog, env, 0, |prog|, 0, 0, 0, 0, 0);
    ReachStep(prog, env, 0, 0, 0, 1, 1);
    ReachStep(prog, env, 0, 1, 1, 2, 1);
  }

  lemma PlusFirst(prog: seq<Inst>, icase: bool, k: char, w: string)
    requires prog == [Char(k), Branch(0, 2), Match] && w != "" && Viable(prog, icase, w)
    ensures CharEq(icase, w[0], k)
  {
    var env := Env(w, icase, false);
    AliveIs(prog, env, 0, |w| - 1);
    AliveBefore(prog, env, 0, 0, |w| - 1);
    var a :| a in ThreadsAt(prog, env, 0, 0) && Reads(prog, env, 0, a);
    var n: nat :| Run(prog, env, 0, |prog|, 0, 0, a, 0, n);
    RunHops(prog, env, a, 0, n);
    var h: nat :| Leads(prog, 0, a, h);
  }

  lemma PlusNotApart(prog: seq<Inst>, icase: bool, k: char, first: set<int>, later: set<int>)
    requires prog == [Char(k), Branch(0, 2), Match]
    ensures !Apart(prog, icase, first, later)
  {
    assert prog[0] == Char(k) && Consumes(prog[0], icase, k);
    assert 0 in first ==> 0 in first + later;
    assert ClosedUnder(prog, later) && 1 in later ==> StaysIn(prog[1], 1, later);
  }

  lemma PlusNoneOvertakes(prog: seq<Inst>, icase: bool, k: char, x: string, y: string)
    requires prog == [Char(k), Branch(0, 2), Match] && x != "" && y != "" && Viable(prog, icase, x + [y[0]])
    ensures Word(prog, icase, (x + y)[..1])
  {
    PlusFirst(prog, icase, k, x + [y[0]]);
    PlusWord(prog, icase, k, x[0]);
    assert (x + y)[..1] == [x[0]];
  }

  /** The program of k+: the search is leftmost in every text, though k is read at the beginning
      and later, so that the condition of LeftmostSearch.Apart is not met. */
  lemma ApartNotNeeded(icase: bool, k: char, prog: seq<Inst>)
    requires prog == [Char(k), Branch(0, 2), Match]
    ensures !exists first, later :: Apart(prog, icase, first, later)
    ensures forall text, multiline, nongreedy | NulFree(text) ::
              LeftmostFrom(prog, Env(text, icase, multiline), nongreedy, 0)
  {
    forall x, y ensures !Overtakes(prog, icase, x, y) {
      if x != "" && y != "" && Viable(prog, icase, x + [y[0]]) {
        PlusNoneOvertakes(prog, icase, k, x, y);
      }
    }
    LeftmostExact(prog, icase);
    forall first, later ensures !Apart(prog, icase, first, later) {
      PlusNotApart(prog, icase, k, first, later);
    }
  }
}
