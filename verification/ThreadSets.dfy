/** What the lock-step machine has to compute: the set of instructions that runs can be at,
    position by position, and the outcome of a match or a search in those terms. */
module ThreadSets {
  import opened Regex
  import opened Program
  import opened CodeMeaning

  /** Where runs started at position st can be when they are at position p. */
  ghost function ThreadsAt(prog: seq<Inst>, env: Env, st: int, p: int): set<int> {
    set pc | 0 <= pc < |prog| && Reach(prog, env, st, pc, p)
  }

  /** Where they are when position p is reached, before any step that stays there. */
  ghost predicate Arrives(prog: seq<Inst>, env: Env, st: int, p: int, pc: int) {
    if p == st then pc == 0
    else pc - 1 in ThreadsAt(prog, env, st, p - 1) && Reads(prog, env, p - 1, pc - 1)
  }

  /** Some run goes on past position p. */
  ghost predicate Alive(prog: seq<Inst>, env: Env, st: int, p: int) {
    exists pc :: pc in ThreadsAt(prog, env, st, p) && Reads(prog, env, p, pc)
  }

  lemma ProgramStep(prog: seq<Inst>, env: Env, pc: int, p: int, pc': int, p': int)
    requires ProgramOk(prog) && Step(prog, env, pc, p, pc', p')
    ensures 0 <= pc' < |prog| && pc < |prog| - 1
  {
  }

  lemma {:induction false} RunStays(prog: seq<Inst>, env: Env, a: int, i: int, b: int, j: int, k: nat)
    requires ProgramOk(prog) && 0 <= a < |prog| && Run(prog, env, 0, |prog|, a, i, b, j, k)
    ensures 0 <= b < |prog| && i <= j
    ensures j > i ==> i < |env.text|
    decreases k
  {
    if k != 0 {
      var m, q :| Step(prog, env, a, i, m, q) && Run(prog, env, 0, |prog|, m, q, b, j, k - 1);
      ProgramStep(prog, env, a, i, m, q);
      RunStays(prog, env, m, q, b, j, k - 1);
    }
  }

  /** A set that holds the arrivals and is closed under steps that stay holds every thread. */
  lemma {:induction false} ClosureComplete(prog: seq<Inst>, env: Env, st: int, p: int, s: set<int>, pc: int, k: nat)
    requires ProgramOk(prog) && Run(prog, env, 0, |prog|, 0, st, pc, p, k)
    requires forall v :: 0 <= v < |prog| && Arrives(prog, env, st, p, v) ==> v in s
    requires forall v, w :: v in s && Epsilon(prog, env, p, v, w) ==> w in s
    ensures pc in s
    decreases k
  {
    if k == 0 {
      assert Arrives(prog, env, st, p, pc);
    } else {
      var m, q := RunLast(prog, env, 0, |prog|, 0, st, pc, p, k);
      RunStays(prog, env, 0, st, m, q, k - 1);
      RunStays(prog, env, 0, st, pc, p, k);
      if q == p {
        ClosureComplete(prog, env, st, p, s, m, k - 1);
      } else {
        assert m in ThreadsAt(prog, env, st, q);
        assert Arrives(prog, env, st, p, pc);
      }
    }
  }

  lemma ArrivesReach(prog: seq<Inst>, env: Env, st: int, p: int, pc: int)
    requires ProgramOk(prog) && st <= p && Arrives(prog, env, st, p, pc)
    ensures pc in ThreadsAt(prog, env, st, p)
  {
    if p == st {
      assert Run(prog, env, 0, |prog|, 0, st, 0, st, 0);
    } else {
      ReachStep(prog, env, st, pc - 1, p - 1, pc, p);
      ProgramStep(prog, env, pc - 1, p - 1, pc, p);
    }
  }

  // ----- outcomes -----

  /** The position where the threads started at st run out, looking from p on. */
  ghost function Dead(prog: seq<Inst>, env: Env, st: int, p: int): (d: int)
    requires p <= |env.text|
    ensures p <= d <= |env.text|
    decreases |env.text| - p
  {
    if p == |env.text| || !Alive(prog, env, st, p) then p else Dead(prog, env, st, p + 1)
  }

  ghost function LastAccept(prog: seq<Inst>, env: Env, st: int, lo: int, hi: int): (r: int)
    ensures r == -1 || lo <= r <= hi
    decreases hi - lo
  {
    if hi < lo then -1
    else if Accepts(prog, env, st, hi) then hi
    else LastAccept(prog, env, st, lo, hi - 1)
  }

  ghost function FirstAccept(prog: seq<Inst>, env: Env, st: int, lo: int, hi: int): (r: int)
    ensures r == -1 || lo <= r <= hi
    decreases hi - lo
  {
    if hi < lo then -1
    else if Accepts(prog, env, st, lo) then lo
    else FirstAccept(prog, env, st, lo + 1, hi)
  }

  /** The end of the match found by the attempt at st, or -1. */
  ghost function AttemptEnd(prog: seq<Inst>, env: Env, nongreedy: bool, st: int): int
    requires st <= |env.text|
  {
    var d := Dead(prog, env, st, st);
    if nongreedy then FirstAccept(prog, env, st, st, d) else LastAccept(prog, env, st, st, d)
  }

  /** Where the search goes on after the attempt at st died at d: at the character that killed
      it, not at st + 1, unless the attempt died on its first character. */
  function NextStart(st: int, d: int): int { if d != st then d else d + 1 }

  datatype Outcome = Outcome(ret: int, matchStart: int, matchEnd: int)

  /** What vm_execute leaves behind when it is at start position st with nothing matched yet. */
  ghost function Execution(prog: seq<Inst>, env: Env, search: bool, nongreedy: bool, st: int): Outcome
    requires 0 <= st <= |env.text|
    decreases |env.text| - st
  {
    var d := Dead(prog, env, st, st);
    var e := AttemptEnd(prog, env, nongreedy, st);
    if e >= 0 then Outcome(if nongreedy || d < |env.text| then 1 else 0, st, e + 1)
    else if d == |env.text| then Outcome(0, st, 0)
    else if !search then Outcome(1, st, 0)
    else Execution(prog, env, search, nongreedy, NextStart(st, d))
  }

  lemma {:induction false} DeadFrom(prog: seq<Inst>, env: Env, st: int, lo: int, p: int)
    requires lo <= p <= |env.text|
    requires forall q :: lo <= q < p ==> Alive(prog, env, st, q)
    ensures Dead(prog, env, st, lo) == Dead(prog, env, st, p)
    decreases p - lo
  {
    if lo < p {
      DeadFrom(prog, env, st, lo + 1, p);
    }
  }

  lemma {:induction false} FirstAcceptIs(prog: seq<Inst>, env: Env, st: int, lo: int, p: int, hi: int)
    requires lo <= p <= hi && Accepts(prog, env, st, p)
    requires forall q :: lo <= q < p ==> !Accepts(prog, env, st, q)
    ensures FirstAccept(prog, env, st, lo, hi) == p
    decreases p - lo
  {
    if lo < p {
      FirstAcceptIs(prog, env, st, lo + 1, p, hi);
    }
  }

  lemma {:induction false} NoFirstAccept(prog: seq<Inst>, env: Env, st: int, lo: int, hi: int)
    requires forall q :: lo <= q <= hi ==> !Accepts(prog, env, st, q)
    ensures FirstAccept(prog, env, st, lo, hi) == -1
    decreases hi - lo
  {
    if lo <= hi {
      NoFirstAccept(prog, env, st, lo + 1, hi);
    }
  }

  lemma {:induction false} LastAcceptHolds(prog: seq<Inst>, env: Env, st: int, lo: int, hi: int)
    requires 0 <= lo
    ensures var r := LastAccept(prog, env, st, lo, hi);
            && (r >= lo ==> Accepts(prog, env, st, r))
            && forall q :: lo <= q <= hi && r < q ==> !Accepts(prog, env, st, q)
    decreases hi - lo
  {
    if lo <= hi && !Accepts(prog, env, st, hi) {
      LastAcceptHolds(prog, env, st, lo, hi - 1);
    }
  }

  lemma {:induction false} FirstAcceptHolds(prog: seq<Inst>, env: Env, st: int, lo: int, hi: int)
    requires 0 <= lo
    ensures var r := FirstAccept(prog, env, st, lo, hi);
            && (r >= lo ==> Accepts(prog, env, st, r) && forall q :: lo <= q < r ==> !Accepts(prog, env, st, q))
            && (r == -1 ==> forall q :: lo <= q <= hi ==> !Accepts(prog, env, st, q))
    decreases hi - lo
  {
    if lo <= hi && !Accepts(prog, env, st, lo) {
      FirstAcceptHolds(prog, env, st, lo + 1, hi);
    }
  }

  /** The attempt at st has run out at p. */
  lemma Settled(prog: seq<Inst>, env: Env, nongreedy: bool, st: int, p: int)
    requires 0 <= st <= p <= |env.text|
    requires forall q :: st <= q < p ==> Alive(prog, env, st, q)
    requires p == |env.text| || !Alive(prog, env, st, p)
    requires nongreedy ==> LastAccept(prog, env, st, st, p) == -1
    ensures Dead(prog, env, st, st) == p
    ensures AttemptEnd(prog, env, nongreedy, st) == LastAccept(prog, env, st, st, p)
  {
    DeadFrom(prog, env, st, st, p);
    if nongreedy {
      LastAcceptHolds(prog, env, st, st, p);
      NoFirstAccept(prog, env, st, st, p);
    }
  }

  /** The attempt at st meets its first match at p. */
  lemma SettledFirst(prog: seq<Inst>, env: Env, st: int, p: int)
    requires 0 <= st <= p <= |env.text| && Accepts(prog, env, st, p)
    requires forall q :: st <= q < p ==> Alive(prog, env, st, q)
    requires LastAccept(prog, env, st, st, p - 1) == -1
    ensures AttemptEnd(prog, env, true, st) == p
  {
    DeadFrom(prog, env, st, st, p);
    LastAcceptHolds(prog, env, st, st, p - 1);
    FirstAcceptIs(prog, env, st, st, p, Dead(prog, env, st, st));
  }

  /** No run gets past the position where the threads run out. */
  lemma {:induction false} ReachInTime(prog: seq<Inst>, env: Env, st: int, d: int, pc: int, p: int, k: nat)
    requires ProgramOk(prog) && st <= d && (d >= |env.text| || !Alive(prog, env, st, d))
    requires Run(prog, env, 0, |prog|, 0, st, pc, p, k)
    ensures p <= d
    decreases k
  {
    if k != 0 {
      var m, q := RunLast(prog, env, 0, |prog|, 0, st, pc, p, k);
      ReachInTime(prog, env, st, d, m, q, k - 1);
      assert q == d ==> m in ThreadsAt(prog, env, st, d);
    }
  }

  lemma {:induction false} DeadHolds(prog: seq<Inst>, env: Env, st: int, p: int)
    requires p <= |env.text|
    ensures var d := Dead(prog, env, st, p); d == |env.text| || !Alive(prog, env, st, d)
    decreases |env.text| - p
  {
    if p < |env.text| && Alive(prog, env, st, p) {
      DeadHolds(prog, env, st, p + 1);
    }
  }

  lemma AcceptedInTime(prog: seq<Inst>, env: Env, st: int, p: int)
    requires ProgramOk(prog) && 0 <= st <= |env.text| && Accepts(prog, env, st, p)
    ensures st <= p <= Dead(prog, env, st, st)
  {
    var pc :| 0 <= pc < |prog| && prog[pc] == Match && Reach(prog, env, st, pc, p);
    var k: nat :| Run(prog, env, 0, |prog|, 0, st, pc, p, k);
    RunStays(prog, env, 0, st, pc, p, k);
    DeadHolds(prog, env, st, st);
    ReachInTime(prog, env, st, Dead(prog, env, st, st), pc, p, k);
  }
}
