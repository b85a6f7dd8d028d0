/** The instructions of the virtual machine and the nondeterministic runs of a program:
    the machine of Vm.dfy has to follow all of them at once. */
module Program {
  import opened Regex

  datatype Inst =
    | Char(c: char)
    | Any
    | Class(members: string)
    | NClass(members: string)
    | Branch(x: int, y: int)
    | Jmp(x: int)
    | StartOfLine
    | EndOfLine
    | Match

  predicate InClass(icase: bool, members: string, c: char) {
    exists k :: 0 <= k < |members| && CharEq(icase, members[k], c)
  }

  /** The instruction reads a character and c is one it lets through. */
  predicate Consumes(inst: Inst, icase: bool, c: char) {
    match inst
    case Char(k) => CharEq(icase, c, k)
    case Any => c != '\n'
    case Class(members) => InClass(icase, members, c)
    case NClass(members) => !InClass(icase, members, c)
    case _ => false
  }

  /** A step that stays at position p. */
  predicate Epsilon(prog: seq<Inst>, env: Env, p: int, pc: int, pc': int) {
    && 0 <= pc < |prog|
    && match prog[pc]
       case StartOfLine => AtStart(env, p) && pc' == pc + 1
       case EndOfLine => AtEnd(env, p) && pc' == pc + 1
       case Branch(x, y) => pc' == x || pc' == y
       case Jmp(x) => pc' == x
       case _ => false
  }

  /** A step that reads the character at position p. */
  predicate Reads(prog: seq<Inst>, env: Env, p: int, pc: int) {
    0 <= pc < |prog| && 0 <= p < |env.text| && Consumes(prog[pc], env.icase, env.text[p])
  }

  predicate Step(prog: seq<Inst>, env: Env, pc: int, p: int, pc': int, p': int) {
    || (p' == p && Epsilon(prog, env, p, pc, pc'))
    || (p' == p + 1 && pc' == pc + 1 && Reads(prog, env, p, pc))
  }

  /** k steps from (a, i) to (b, j); every instruction executed lies in [lo, hi). */
  ghost predicate Run(prog: seq<Inst>, env: Env, lo: int, hi: int, a: int, i: int, b: int, j: int, k: nat)
    decreases k
  {
    if k == 0 then a == b && i == j
    else
      && lo <= a < hi
      && exists m, q :: Step(prog, env, a, i, m, q) && Run(prog, env, lo, hi, m, q, b, j, k - 1)
  }

  /** The code in [lo, hi) can take position i to position j, leaving at hi. */
  ghost predicate Through(prog: seq<Inst>, env: Env, lo: int, hi: int, i: int, j: int) {
    exists k: nat :: Run(prog, env, lo, hi, lo, i, hi, j, k)
  }

  /** Some run of the whole program started at instruction 0, position st is at pc, position p. */
  ghost predicate Reach(prog: seq<Inst>, env: Env, st: int, pc: int, p: int) {
    exists k: nat :: Run(prog, env, 0, |prog|, 0, st, pc, p, k)
  }

  /** The program matches the stretch [st, p). */
  ghost predicate Accepts(prog: seq<Inst>, env: Env, st: int, p: int) {
    exists pc :: 0 <= pc < |prog| && prog[pc] == Match && Reach(prog, env, st, pc, p)
  }

  /** No instruction looks at line starts or ends. */
  predicate AnchorFree(prog: seq<Inst>) {
    forall k :: 0 <= k < |prog| ==> prog[k] != StartOfLine && prog[k] != EndOfLine
  }

  // ----- composing and splitting runs -----

  lemma {:induction false} RunStep(prog: seq<Inst>, env: Env, lo: int, hi: int, a: int, i: int, m: int, q: int,
                                   b: int, j: int, k: nat)
    requires lo <= a < hi && Step(prog, env, a, i, m, q)
    requires Run(prog, env, lo, hi, m, q, b, j, k)
    ensures Run(prog, env, lo, hi, a, i, b, j, k + 1)
  {
  }

  lemma {:induction false} RunConcat(prog: seq<Inst>, env: Env, lo: int, hi: int, a: int, i: int, m: int, q: int,
                                     b: int, j: int, k1: nat, k2: nat)
    requires Run(prog, env, lo, hi, a, i, m, q, k1) && Run(prog, env, lo, hi, m, q, b, j, k2)
    ensures Run(prog, env, lo, hi, a, i, b, j, k1 + k2)
    decreases k1
  {
    if k1 != 0 {
      var m1, q1 :| Step(prog, env, a, i, m1, q1) && Run(prog, env, lo, hi, m1, q1, m, q, k1 - 1);
      RunConcat(prog, env, lo, hi, m1, q1, m, q, b, j, k1 - 1, k2);
      RunStep(prog, env, lo, hi, a, i, m1, q1, b, j, k1 + k2 - 1);
    }
  }

  lemma {:induction false} RunWiden(prog: seq<Inst>, env: Env, lo: int, hi: int, a: int, i: int, b: int, j: int,
                                    k: nat, lo': int, hi': int)
    requires Run(prog, env, lo, hi, a, i, b, j, k) && lo' <= lo && hi <= hi'
    ensures Run(prog, env, lo', hi', a, i, b, j, k)
    decreases k
  {
    if k != 0 {
      var m, q :| Step(prog, env, a, i, m, q) && Run(prog, env, lo, hi, m, q, b, j, k - 1);
      RunWiden(prog, env, lo, hi, m, q, b, j, k - 1, lo', hi');
      RunStep(prog, env, lo', hi', a, i, m, q, b, j, k - 1);
    }
  }

  /** No step out of [lo, mid) misses mid. */
  ghost predicate Closed(prog: seq<Inst>, lo: int, mid: int) {
    forall env, pc, p, pc', p' :: lo <= pc < mid && Step(prog, env, pc, p, pc', p') ==> lo <= pc' <= mid
  }

  /** A run from inside a closed stretch to somewhere outside it leaves at the stretch's end. */
  lemma {:induction false} RunSplit(prog: seq<Inst>, env: Env, lo: int, mid: int, lo2: int, hi2: int,
                                    a: int, i: int, b: int, j: int, k: nat)
    returns (q: int, k1: nat)
    requires Closed(prog, lo, mid) && lo <= a <= mid && !(lo <= b < mid)
    requires Run(prog, env, lo2, hi2, a, i, b, j, k)
    ensures k1 <= k
    ensures Run(prog, env, lo, mid, a, i, mid, q, k1)
    ensures Run(prog, env, lo2, hi2, mid, q, b, j, k - k1)
    decreases k
  {
    if a == mid {
      q, k1 := i, 0;
    } else {
      var m, q' :| Step(prog, env, a, i, m, q') && Run(prog, env, lo2, hi2, m, q', b, j, k - 1);
      var k';
      q, k' := RunSplit(prog, env, lo, mid, lo2, hi2, m, q', b, j, k - 1);
      k1 := k' + 1;
      RunStep(prog, env, lo, mid, a, i, m, q', mid, q, k');
    }
  }

  /** The same, when the run stops at the end of the stretch and of its own range. */
  lemma RunNarrow(prog: seq<Inst>, env: Env, lo: int, hi: int, lo2: int, a: int, i: int, j: int, k: nat)
    requires Closed(prog, lo, hi) && lo <= a <= hi
    requires Run(prog, env, lo2, hi, a, i, hi, j, k)
    ensures Run(prog, env, lo, hi, a, i, hi, j, k)
  {
    var q, k1 := RunSplit(prog, env, lo, hi, lo2, hi, a, i, hi, j, k);
  }

  /** The last step of a run. */
  lemma {:induction false} RunLast(prog: seq<Inst>, env: Env, lo: int, hi: int, a: int, i: int, b: int, j: int, k: nat)
    returns (m: int, q: int)
    requires k > 0 && Run(prog, env, lo, hi, a, i, b, j, k)
    ensures Run(prog, env, lo, hi, a, i, m, q, k - 1)
    ensures lo <= m < hi && Step(prog, env, m, q, b, j)
    decreases k
  {
    var a', i' :| Step(prog, env, a, i, a', i') && Run(prog, env, lo, hi, a', i', b, j, k - 1);
    if k == 1 {
      m, q := a, i;
    } else {
      m, q := RunLast(prog, env, lo, hi, a', i', b, j, k - 1);
      RunStep(prog, env, lo, hi, a, i, a', i', m, q, k - 2);
    }
  }

  lemma ReachStep(prog: seq<Inst>, env: Env, st: int, pc: int, p: int, pc': int, p': int)
    requires Reach(prog, env, st, pc, p) && Step(prog, env, pc, p, pc', p')
    ensures Reach(prog, env, st, pc', p')
  {
    var k: nat :| Run(prog, env, 0, |prog|, 0, st, pc, p, k);
    assert Run(prog, env, 0, |prog|, pc', p', pc', p', 0);
    RunStep(prog, env, 0, |prog|, pc, p, pc', p', pc', p', 0);
    RunConcat(prog, env, 0, |prog|, 0, st, pc, p, pc', p', k, 1);
  }
}
