/** librxvm/stage2.c: offsets become absolute, and chains of jumps are cut short. */
module Stage2 {
  import opened Regex
  import opened Program
  import opened CodeGen
  import opened CodeMeaning

  predicate JumpsForward(prog: seq<Inst>) {
    forall k :: 0 <= k < |prog| && prog[k].Jmp? ==> k < prog[k].x < |prog|
  }

  /** Where the chain of jumps that starts at k leads in the end. */
  function End(prog: seq<Inst>, k: int): (e: int)
    requires JumpsForward(prog) && 0 <= k < |prog| && prog[k].Jmp?
    ensures k < e < |prog| && !prog[e].Jmp?
    decreases |prog| - k
  {
    if prog[prog[k].x].Jmp? then End(prog, prog[k].x) else prog[k].x
  }

  /** The program with every jump going straight to where its chain leads. */
  function Collapse(prog: seq<Inst>): (r: seq<Inst>)
    requires JumpsForward(prog)
    ensures |r| == |prog|
    ensures forall k :: 0 <= k < |prog| ==> r[k] == if prog[k].Jmp? then Jmp(End(prog, k)) else prog[k]
  {
    seq(|prog|, k requires 0 <= k < |prog| => if prog[k].Jmp? then Jmp(End(prog, k)) else prog[k])
  }

  /** Without jumps there is nothing to shorten. */
  lemma CollapseNone(prog: seq<Inst>)
    requires forall k :: 0 <= k < |prog| ==> !prog[k].Jmp?
    ensures JumpsForward(prog) && Collapse(prog) == prog
  {
  }

  /** Some of the jumps have been cut short. */
  predicate PartlyCollapsed(prog: seq<Inst>, now: seq<Inst>)
    requires JumpsForward(prog)
  {
    && |now| == |prog|
    && forall k :: 0 <= k < |prog| ==> now[k] == prog[k] || (prog[k].Jmp? && now[k] == Jmp(End(prog, k)))
  }

  lemma {:induction false} EndStable(prog: seq<Inst>, now: seq<Inst>, k: int)
    requires JumpsForward(prog) && PartlyCollapsed(prog, now) && 0 <= k < |prog| && prog[k].Jmp?
    ensures JumpsForward(now) && End(now, k) == End(prog, k)
    decreases |prog| - k
  {
    assert JumpsForward(now);
    if now[k] == prog[k] && prog[prog[k].x].Jmp? {
      EndStable(prog, now, prog[k].x);
    }
  }

  /** chain[..chained] are the jumps met from ix on, the last one leading to something else. */
  ghost predicate ChainFrom(prog: seq<Inst>, chain: seq<int>, ix: int)
    requires JumpsForward(prog)
  {
    && |chain| > 0 && chain[0] == ix
    && (forall j :: 0 <= j < |chain| ==> 0 <= chain[j] < |prog| && prog[chain[j]].Jmp?)
    && (forall j :: 0 <= j < |chain| ==> End(prog, chain[j]) == End(prog, ix))
  }

  /** Follow the chain of jumps, saving the index of each one. */
  method FollowChain(exe: array<Inst>, chain: array<int>, lookup: array<bool>, ix: int) returns (chained: int)
    requires chain as object != lookup && exe as object !in {chain as object, lookup}
    requires chain.Length == lookup.Length == exe.Length
    requires JumpsForward(exe[..]) && 0 <= ix < exe.Length && exe[ix].Jmp?
    modifies chain, lookup
    ensures 1 <= chained <= chain.Length && ChainFrom(exe[..], chain[..chained], ix)
    ensures exe[chain[chained - 1]].x == End(exe[..], ix)
    ensures forall v :: 0 <= v < lookup.Length && lookup[v] && !old(lookup[v]) ==> v in chain[..chained]
  {
    chain[0] := ix;
    lookup[ix] := true;
    chained := 1;
    var inst := exe[ix];
    ghost var prog := exe[..];
    assert chain[..1] == [ix];
    while inst.Jmp?
      invariant 1 <= chained <= exe.Length && chained <= chain[chained - 1] + 1
      invariant ChainFrom(prog, chain[..chained], ix)
      invariant if inst.Jmp? then inst == prog[chain[chained - 1]]
                else !prog[prog[chain[chained - 1]].x].Jmp?
      invariant forall v :: 0 <= v < lookup.Length && lookup[v] && !old(lookup[v]) ==> v in chain[..chained]
      decreases if inst.Jmp? then |prog| - inst.x else 0
    {
      assert chain[..chained][chained - 1] == chain[chained - 1];
      if exe[inst.x].Jmp? {
        ghost var before := chain[..chained];
        chain[chained] := inst.x;
        chained := chained + 1;
        assert chain[..chained] == before + [inst.x];
        lookup[inst.x] := true;
      }
      inst := exe[inst.x];
    }
    assert chain[..chained][chained - 1] == chain[chained - 1];
  }

  /** Follows the chain from ix, then makes all of its jumps go where the last one goes. */
  method OptimiseChain(exe: array<Inst>, chain: array<int>, lookup: array<bool>, ix: int)
    requires chain as object != lookup && exe as object !in {chain as object, lookup}
    requires chain.Length == lookup.Length == exe.Length
    requires JumpsForward(exe[..]) && 0 <= ix < exe.Length && exe[ix].Jmp?
    modifies exe, chain, lookup
    ensures PartlyCollapsed(old(exe[..]), exe[..])
    ensures exe[ix] == Jmp(End(old(exe[..]), ix))
    ensures forall v :: 0 <= v < lookup.Length && lookup[v] && !old(lookup[v]) ==>
              old(exe[v]).Jmp? && exe[v] == Jmp(End(old(exe[..]), v))
  {
    ghost var prog := exe[..];
    var chained := FollowChain(exe, chain, lookup, ix);
    var end := exe[chain[chained - 1]].x;
    ghost var saved, marks := chain[..chained], lookup[..];
    var j := 0;
    while j < chained
      invariant 0 <= j <= chained && chain[..chained] == saved && lookup[..] == marks
      invariant PartlyCollapsed(prog, exe[..])
      invariant forall i :: 0 <= i < j ==> exe[saved[i]] == Jmp(end)
    {
      assert chain[j] == saved[j];
      exe[chain[j]] := Jmp(end);
      j := j + 1;
    }
    assert exe[saved[0]] == Jmp(end);
    forall v | 0 <= v < lookup.Length && lookup[v] && !old(lookup[v])
      ensures prog[v].Jmp? && exe[v] == Jmp(End(prog, v))
    {
      assert marks[v] && v in saved;
      var i :| 0 <= i < |saved| && saved[i] == v;
    }
  }

  lemma StaysForward(prog: seq<Inst>, now: seq<Inst>)
    requires JumpsForward(prog) && PartlyCollapsed(prog, now)
    ensures JumpsForward(now) && Collapse(now) == Collapse(prog)
  {
    forall k | 0 <= k < |prog| && prog[k].Jmp? ensures End(now, k) == End(prog, k) {
      EndStable(prog, now, k);
    }
  }

  /** The jumps below i, and those already visited, lead to something else than a jump. */
  ghost predicate Progress(prog: seq<Inst>, now: seq<Inst>, lookup: seq<bool>, i: int)
    requires JumpsForward(prog)
  {
    && |now| == |prog| == |lookup| && JumpsForward(now) && Collapse(now) == Collapse(prog)
    && (forall k :: 0 <= k < |now| && now[k].Jmp? && (k < i || lookup[k]) ==> !now[now[k].x].Jmp?)
    && (forall k :: 0 <= k < |now| && lookup[k] ==> now[k].Jmp?)
  }

  lemma ProgressOn(prog: seq<Inst>, now: seq<Inst>, lookup: seq<bool>, now': seq<Inst>, lookup': seq<bool>, i: int)
    requires JumpsForward(prog) && Progress(prog, now, lookup, i)
    requires PartlyCollapsed(now, now') && |lookup'| == |lookup|
    requires 0 <= i < |now| && now[i].Jmp? && now'[i] == Jmp(End(now, i))
    requires forall v :: 0 <= v < |lookup| && lookup'[v] && !lookup[v] ==> now[v].Jmp? && now'[v] == Jmp(End(now, v))
    ensures Progress(prog, now', lookup', i + 1)
  {
    StaysForward(now, now');
    forall k | 0 <= k < |now| && now'[k].Jmp? && (k < i + 1 || lookup'[k]) ensures !now'[now'[k].x].Jmp? {
      assert now[k].Jmp?;
      assert k == i || (lookup'[k] && !lookup[k]) || !now[now[k].x].Jmp?;
      assert now'[k].x == End(now, k);
      SameKind(now, now', End(now, k));
    }
    forall k | 0 <= k < |now| && lookup'[k] ensures now'[k].Jmp? {
      if lookup[k] { assert now[k].Jmp?; }
    }
  }

  lemma SameKind(now: seq<Inst>, now': seq<Inst>, k: int)
    requires JumpsForward(now) && PartlyCollapsed(now, now') && 0 <= k < |now|
    ensures now'[k].Jmp? <==> now[k].Jmp?
  {
  }

  lemma ProgressSkip(prog: seq<Inst>, now: seq<Inst>, lookup: seq<bool>, i: int)
    requires JumpsForward(prog) && Progress(prog, now, lookup, i)
    requires 0 <= i < |now| && (now[i].Jmp? && now[now[i].x].Jmp? ==> lookup[i])
    ensures Progress(prog, now, lookup, i + 1)
  {
  }

  method OptimiseChains(exe: array<Inst>)
    requires JumpsForward(exe[..]) && exe.Length > 0 && !exe[exe.Length - 1].Jmp?
    modifies exe
    ensures exe[..] == Collapse(old(exe[..]))
  {
    var chain := new int[exe.Length];
    var lookup := new bool[exe.Length](_ => false);
    ghost var prog := exe[..];
    var i := 0;
    while i < exe.Length - 1
      invariant 0 <= i <= exe.Length - 1
      invariant Progress(prog, exe[..], lookup[..], i)
    {
      var inst := exe[i];
      ghost var before, marked := exe[..], lookup[..];
      assert inst == before[i] && lookup[i] == marked[i];
      if inst.Jmp? && exe[inst.x].Jmp? && !lookup[i] {
        OptimiseChain(exe, chain, lookup, i);
        ProgressOn(prog, before, marked, exe[..], lookup[..], i);
      } else {
        ProgressSkip(prog, before, marked, i);
      }
      i := i + 1;
    }
    AllStraight(prog, exe[..], lookup[..]);
  }

  lemma AllStraight(prog: seq<Inst>, now: seq<Inst>, lookup: seq<bool>)
    requires JumpsForward(prog) && |prog| > 0 && !prog[|prog| - 1].Jmp?
    requires Progress(prog, now, lookup, |prog| - 1)
    ensures now == Collapse(prog)
  {
    assert Collapse(now)[|now| - 1] == Collapse(prog)[|prog| - 1];
    forall k | 0 <= k < |now| ensures now[k] == Collapse(now)[k] {
    }
  }

  /** stage2: link the code stage 1 has built, then shorten its jumps if there are chains. */
  method Assemble(code: seq<Inst>, chained: bool) returns (exe: array<Inst>)
    requires |code| > 0 && JumpsForward(Link(code)) && !code[|code| - 1].Jmp?
    ensures fresh(exe)
    ensures exe[..] == if chained then Collapse(Link(code)) else Link(code)
  {
    exe := new Inst[|code|](_ => Match);
    var i := 0;
    while i < |code|
      invariant 0 <= i <= |code|
      invariant forall k :: 0 <= k < i ==> exe[k] == Shift(code[k], k)
    {
      var inst := code[i];
      if inst.Branch? {
        inst := Branch(inst.x + i, inst.y + i);
      } else if inst.Jmp? {
        inst := Jmp(inst.x + i);
      }
      exe[i] := inst;
      i := i + 1;
    }
    assert exe[..] == Link(code);
    if chained {
      OptimiseChains(exe);
    }
  }

  // ----- shortened jumps change no run -----

  lemma CollapseOk(prog: seq<Inst>)
    requires ProgramOk(prog)
    ensures JumpsForward(prog) && ProgramOk(Collapse(prog))
    ensures forall k :: 0 <= k < |prog| && Collapse(prog)[k].Jmp? ==> !Collapse(prog)[Collapse(prog)[k].x].Jmp?
  {
    var short := Collapse(prog);
    forall k | 0 <= k < |prog|
      ensures prog[k].Jmp? ==> k < prog[k].x < |prog|
      ensures prog[k].Branch? ==> 0 <= prog[k].x < |prog| && k < prog[k].y < |prog|
    {
    }
    forall k | 0 <= k < |prog| && short[k].Jmp? ensures k < short[k].x < |prog| && !short[short[k].x].Jmp? {
      assert short[k] == Jmp(End(prog, k));
    }
  }

  /** The chain itself, run in the original program. */
  lemma {:induction false} ChainRuns(prog: seq<Inst>, env: Env, k: int, p: int)
    requires JumpsForward(prog) && 0 <= k < |prog| && prog[k].Jmp?
    ensures exists n: nat :: Run(prog, env, 0, |prog|, k, p, End(prog, k), p, n)
    decreases |prog| - k
  {
    var x := prog[k].x;
    if prog[x].Jmp? {
      ChainRuns(prog, env, x, p);
      var n: nat :| Run(prog, env, 0, |prog|, x, p, End(prog, x), p, n);
      RunStep(prog, env, 0, |prog|, k, p, x, p, End(prog, k), p, n);
    } else {
      assert End(prog, k) == x && Run(prog, env, 0, |prog|, x, p, x, p, 0);
      RunStep(prog, env, 0, |prog|, k, p, x, p, x, p, 0);
      assert Run(prog, env, 0, |prog|, k, p, End(prog, k), p, 1);
    }
  }

  lemma {:induction false} RunCollapsed(prog: seq<Inst>, env: Env, a: int, i: int, b: int, j: int, n: nat)
    requires JumpsForward(prog) && 0 <= b < |prog| && !prog[b].Jmp?
    requires Run(prog, env, 0, |prog|, a, i, b, j, n)
    ensures exists n': nat :: Run(Collapse(prog), env, 0, |prog|, a, i, b, j, n')
    decreases n
  {
    var short := Collapse(prog);
    if n == 0 {
      assert Run(short, env, 0, |prog|, a, i, b, j, 0);
    } else {
      var m, q :| Step(prog, env, a, i, m, q) && Run(prog, env, 0, |prog|, m, q, b, j, n - 1);
      RunCollapsed(prog, env, m, q, b, j, n - 1);
      var n': nat :| Run(short, env, 0, |prog|, m, q, b, j, n');
      if prog[a].Jmp? && prog[m].Jmp? {
        var m2, q2 :| Step(short, env, m, q, m2, q2) && Run(short, env, 0, |prog|, m2, q2, b, j, n' - 1);
        RunStep(short, env, 0, |prog|, a, i, m2, q2, b, j, n' - 1);
      } else {
        RunStep(short, env, 0, |prog|, a, i, m, q, b, j, n');
      }
    }
  }

  lemma {:induction false} RunExpanded(prog: seq<Inst>, env: Env, a: int, i: int, b: int, j: int, n: nat)
    requires JumpsForward(prog) && Run(Collapse(prog), env, 0, |prog|, a, i, b, j, n)
    ensures exists n': nat :: Run(prog, env, 0, |prog|, a, i, b, j, n')
    decreases n
  {
    if n == 0 {
      assert Run(prog, env, 0, |prog|, a, i, b, j, 0);
    } else {
      var m, q :| Step(Collapse(prog), env, a, i, m, q) && Run(Collapse(prog), env, 0, |prog|, m, q, b, j, n - 1);
      RunExpanded(prog, env, m, q, b, j, n - 1);
      var n2: nat :| Run(prog, env, 0, |prog|, m, q, b, j, n2);
      if prog[a].Jmp? {
        ChainRuns(prog, env, a, i);
        var n1: nat :| Run(prog, env, 0, |prog|, a, i, m, q, n1);
        RunConcat(prog, env, 0, |prog|, a, i, m, q, b, j, n1, n2);
      } else {
        RunStep(prog, env, 0, |prog|, a, i, m, q, b, j, n2);
      }
    }
  }

  /** A program and its shortened form accept the same stretches of every text. */
  lemma CollapsePreserves(prog: seq<Inst>, env: Env, st: int, p: int)
    requires ProgramOk(prog)
    ensures JumpsForward(prog)
    ensures Accepts(Collapse(prog), env, st, p) <==> Accepts(prog, env, st, p)
  {
    CollapseOk(prog);
    if Accepts(prog, env, st, p) {
      var pc :| 0 <= pc < |prog| && prog[pc] == Match && Reach(prog, env, st, pc, p);
      var n: nat :| Run(prog, env, 0, |prog|, 0, st, pc, p, n);
      RunCollapsed(prog, env, 0, st, pc, p, n);
      assert Reach(Collapse(prog), env, st, pc, p);
    }
    if Accepts(Collapse(prog), env, st, p) {
      var pc :| 0 <= pc < |prog| && Collapse(prog)[pc] == Match && Reach(Collapse(prog), env, st, pc, p);
      var n: nat :| Run(Collapse(prog), env, 0, |prog|, 0, st, pc, p, n);
      RunExpanded(prog, env, 0, st, pc, p, n);
      assert Reach(prog, env, st, pc, p);
    }
  }
}
