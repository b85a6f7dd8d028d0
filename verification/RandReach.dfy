/** Which texts come out of the generator of RandInput.dfy: just those that a run of the program
    makes of characters the generator can write, with a newline at each anchor that needs one. */
module RandReach {
  import opened Regex
  import opened Program
  import opened CodeMeaning
  import opened ThreadSets
  import opened RandInput
  import Sentences
  import opened Context
  import opened Rxvm
  import Compilation
  import Searching

  /** The characters that can be written for an instruction that reads one. */
  predicate Made(inst: Inst, c: char) {
    match inst
    case Char(k) => c == k
    case Any => ' ' <= c <= '~' || (7 <= c as int <= 13 && c != '\n')
    case Class(members) => c in members
    case NClass(members) => ' ' <= c <= '~' && c !in members
    case _ => false
  }

  /** One step of the program that the generator can follow. At an anchor it writes a newline that the
      program does not read: for a line start unless the text is at one, for a line end unless the
      next instruction writes it. */
  predicate MadeStep(prog: seq<Inst>, env: Env, pc: int, p: int, m: int, q: int)
    requires 0 <= pc < |prog|
  {
    match prog[pc]
    case StartOfLine =>
      m == pc + 1 && NewlineUnless(p == 0 || (0 < p <= |env.text| && env.text[p - 1] == '\n'), env, p, q)
    case EndOfLine => m == pc + 1 && NewlineUnless(pc + 1 < |prog| && prog[pc + 1] == Char('\n'), env, p, q)
    case _ => Step(prog, env, pc, p, m, q) && (q == p || (0 <= p < |env.text| && Made(prog[pc], env.text[p])))
  }

  predicate NewlineUnless(there: bool, env: Env, p: int, q: int) {
    if there then q == p else q == p + 1 && 0 <= p < |env.text| && env.text[p] == '\n'
  }

  /** k such steps from instruction pc, at p of the text, to the end of both. */
  ghost predicate MadeRun(prog: seq<Inst>, env: Env, pc: int, p: int, k: nat)
    decreases k
  {
    && 0 <= pc < |prog|
    && if k == 0 then prog[pc] == Match && p == |env.text|
       else exists m, q :: MadeStep(prog, env, pc, p, m, q) && MadeRun(prog, env, m, q, k - 1)
  }

  predicate Percentage(n: nat) { 1 <= n <= 100 }

  // ----- every such text comes out -----

  lemma ChoiceBoth(prob: nat)
    requires Percentage(prob)
    ensures Choice(prob, 0) && !Choice(prob, 100)
  {
  }

  lemma RangeAll(low: nat, high: nat, n: nat)
    requires low <= n <= high
    ensures RandRange(low, high, n - low) == n
  {
  }

  /** The random values that make the generator write c. */
  lemma WrittenFor(inst: Inst, whitespace: nat, c: char) returns (rands: seq<nat>)
    requires Made(inst, c) && Percentage(whitespace)
    ensures Writes(inst) && |rands| == Needs(inst) && Written(inst, whitespace, rands) == c
  {
    match inst
    case Char(_) => rands := [];
    case Any =>
      ChoiceBoth(whitespace);
      if ' ' <= c <= '~' {
        rands := [100, c as int - 32];
        RangeAll(32, 126, c as int);
      } else {
        rands := [0, c as int - 7];
        RangeAll(7, 13, c as int);
      }
    case Class(members) =>
      var k :| 0 <= k < |members| && members[k] == c;
      rands := [k];
      RangeAll(0, |members| - 1, k);
    case NClass(members) =>
      rands := [c as int - 32];
      RangeAll(32, 126, c as int);
  }

  lemma WrittenMore(inst: Inst, whitespace: nat, first: seq<nat>, rest: seq<nat>)
    requires Writes(inst) && |first| == Needs(inst)
    ensures Written(inst, whitespace, first + rest) == Written(inst, whitespace, first)
    ensures (first + rest)[Needs(inst)..] == rest
  {
  }

  lemma {:induction false} RunGenerated(prog: seq<Inst>, generosity: nat, whitespace: nat, limit: nat, env: Env,
                                        pc: int, p: int, k: nat) returns (rands: seq<nat>)
    requires ProgramOk(prog) && Percentage(generosity) && Percentage(whitespace) && !env.icase
    requires |env.text| < limit && 0 <= p <= |env.text| && MadeRun(prog, env, pc, p, k)
    ensures Walk(prog, generosity, whitespace, limit, rands, pc, env.text[..p]) == Some(env.text)
    decreases k
  {
    if k == 0 {
      rands := [];
      assert env.text[..p] == env.text;
    } else {
      var m, q :| MadeStep(prog, env, pc, p, m, q) && MadeRun(prog, env, m, q, k - 1);
      var rest := RunGenerated(prog, generosity, whitespace, limit, env, m, q, k - 1);
      if prog[pc].StartOfLine? || prog[pc].EndOfLine? {
        rands := rest;
        assert env.text[..q] == env.text[..p] + if q == p then [] else ['\n'];
      } else if q == p + 1 {
        var first := WrittenFor(prog[pc], whitespace, env.text[p]);
        WrittenMore(prog[pc], whitespace, first, rest);
        rands := first + rest;
        assert env.text[..p] + [env.text[p]] == env.text[..q];
      } else {
        rands := EpsilonGenerated(prog, generosity, whitespace, limit, env, pc, p, m, rest);
      }
    }
  }

  lemma EpsilonGenerated(prog: seq<Inst>, generosity: nat, whitespace: nat, limit: nat, env: Env,
                         pc: int, p: int, m: int, rest: seq<nat>) returns (rands: seq<nat>)
    requires ProgramOk(prog) && Percentage(generosity) && |env.text| < limit
    requires 0 <= p <= |env.text| && 0 <= pc < |prog| && 0 <= m < |prog| && Epsilon(prog, env, p, pc, m)
    requires prog[pc] != StartOfLine && prog[pc] != EndOfLine
    requires Walk(prog, generosity, whitespace, limit, rest, m, env.text[..p]) == Some(env.text)
    ensures Walk(prog, generosity, whitespace, limit, rands, pc, env.text[..p]) == Some(env.text)
  {
    if prog[pc].Branch? {
      ChoiceBoth(generosity);
      rands := [if m == prog[pc].x then 0 else 100] + rest;
      assert rands[1..] == rest;
    } else {
      rands := rest;
    }
  }

  // ----- and nothing else -----

  lemma MadeFirst(prog: seq<Inst>, env: Env, pc: int, p: int, m: int, q: int, k: nat)
    requires 0 <= pc < |prog| && MadeStep(prog, env, pc, p, m, q) && MadeRun(prog, env, m, q, k)
    ensures MadeRun(prog, env, pc, p, k + 1)
  {
  }

  lemma WrittenMade(inst: Inst, whitespace: nat, rands: seq<nat>)
    requires Writes(inst) && |rands| >= Needs(inst) && (inst.NClass? ==> !Full(inst.members))
    ensures Made(inst, Written(inst, whitespace, rands)) && Consumes(inst, false, Written(inst, whitespace, rands))
  {
  }

  /** One step of the walk, and what it has written. */
  lemma WalkNext(prog: seq<Inst>, generosity: nat, whitespace: nat, limit: nat, rands: seq<nat>, ip: int, out: string)
    returns (rands': seq<nat>, ip': int, out': string)
    requires ProgramOk(prog) && Negatable(prog) && 0 <= ip < |prog| && prog[ip] != Match
    requires Walk(prog, generosity, whitespace, limit, rands, ip, out).Some?
    ensures 0 <= ip' < |prog| && (|rands'| < |rands| || (rands' == rands && ip < ip'))
    ensures Walk(prog, generosity, whitespace, limit, rands', ip', out') ==
            Walk(prog, generosity, whitespace, limit, rands, ip, out)
    ensures |out| <= |out'| && out'[..|out|] == out
    ensures MadeStep(prog, Env(out', false, true), ip, |out|, ip', |out'|)
  {
    match prog[ip]
    case Match => assert false;
    case StartOfLine =>
      var newline := if |out| > 0 && out[|out| - 1] != '\n' then ['\n'] else [];
      rands', ip', out' := rands, ip + 1, out + newline;
    case EndOfLine =>
      var newline := if prog[ip + 1] != Char('\n') then ['\n'] else [];
      rands', ip', out' := rands, ip + 1, out + newline;
    case Branch(x, y) =>
      rands', out' := rands[1..], out;
      ip' := if Choice(if |out| >= limit then 0 else generosity, rands[0]) then x else y;
    case Jmp(x) => rands', ip', out' := rands, x, out;
    case _ =>
      WrittenMade(prog[ip], whitespace, rands);
      rands', ip', out' := rands[Needs(prog[ip])..], ip + 1, out + [Written(prog[ip], whitespace, rands)];
  }

  lemma MadeStepMore(prog: seq<Inst>, out: string, env: Env, pc: int, p: int, m: int)
    requires 0 <= pc < |prog| && 0 <= p <= |out| <= |env.text| && env.text[..|out|] == out && !env.icase
    requires MadeStep(prog, Env(out, false, true), pc, p, m, |out|)
    ensures MadeStep(prog, env, pc, p, m, |out|)
  {
    assert forall k :: 0 <= k < |out| ==> env.text[k] == env.text[..|out|][k];
  }

  lemma {:induction false} WalkMade(prog: seq<Inst>, generosity: nat, whitespace: nat, limit: nat, rands: seq<nat>,
                                    ip: int, out: string, env: Env) returns (k: nat)
    requires ProgramOk(prog) && Negatable(prog) && 0 <= ip < |prog| && !env.icase
    requires Walk(prog, generosity, whitespace, limit, rands, ip, out) == Some(env.text)
    ensures |out| <= |env.text| && env.text[..|out|] == out && MadeRun(prog, env, ip, |out|, k)
    decreases |rands|, |prog| - ip
  {
    if prog[ip] == Match {
      k := 0;
    } else {
      var rands', ip', out' := WalkNext(prog, generosity, whitespace, limit, rands, ip, out);
      var n := WalkMade(prog, generosity, whitespace, limit, rands', ip', out', env);
      assert env.text[..|out|] == env.text[..|out'|][..|out|];
      MadeStepMore(prog, out', env, ip, |out|, ip');
      MadeFirst(prog, env, ip, |out|, ip', |out'|, n);
      k := n + 1;
    }
  }

  /** Below the limit a text comes out for some random values exactly when such a run makes it. */
  lemma GeneratedExactly(prog: seq<Inst>, generosity: nat, whitespace: nat, limit: nat, env: Env)
    requires ProgramOk(prog) && Negatable(prog) && !env.icase
    requires Percentage(generosity) && Percentage(whitespace) && |env.text| < limit
    ensures (exists rands :: Walk(prog, generosity, whitespace, limit, rands, 0, "") == Some(env.text)) <==>
            exists k: nat :: MadeRun(prog, env, 0, 0, k)
  {
    if rands :| Walk(prog, generosity, whitespace, limit, rands, 0, "") == Some(env.text) {
      var k := WalkMade(prog, generosity, whitespace, limit, rands, 0, "", env);
      assert MadeRun(prog, env, 0, 0, k);
    }
    if k: nat :| MadeRun(prog, env, 0, 0, k) {
      var rands := RunGenerated(prog, generosity, whitespace, limit, env, 0, 0, k);
      assert env.text[..0] == "";
      assert Walk(prog, generosity, whitespace, limit, rands, 0, "") == Some(env.text);
    }
  }

  // ----- printable texts -----

  lemma {:induction false} RunMade(prog: seq<Inst>, env: Env, a: int, i: int, b: int, j: int, k: nat)
    requires ProgramOk(prog) && AnchorFree(prog) && 0 <= a < |prog| && Run(prog, env, 0, |prog|, a, i, b, j, k)
    requires !env.icase && 0 <= b < |prog| && prog[b] == Match
    requires j == |env.text| && forall q :: 0 <= q < |env.text| ==> PrintableRange(env.text[q])
    ensures MadeRun(prog, env, a, i, k)
    decreases k
  {
    if k != 0 {
      var m, q :| Step(prog, env, a, i, m, q) && Run(prog, env, 0, |prog|, m, q, b, j, k - 1);
      ProgramStep(prog, env, a, i, m, q);
      RunMade(prog, env, m, q, b, j, k - 1);
      assert q == i + 1 ==> PrintableRange(env.text[i]);
      assert MadeStep(prog, env, a, i, m, q);
    }
  }

  /** Every text of printable characters that the program accepts comes out for some random values. */
  lemma PrintableGenerated(prog: seq<Inst>, generosity: nat, whitespace: nat, limit: nat, env: Env)
    requires ProgramOk(prog) && AnchorFree(prog) && !env.icase
    requires Percentage(generosity) && Percentage(whitespace) && |env.text| < limit
    requires Accepts(prog, env, 0, |env.text|)
    requires forall q :: 0 <= q < |env.text| ==> PrintableRange(env.text[q])
    ensures exists rands :: Walk(prog, generosity, whitespace, limit, rands, 0, "") == Some(env.text)
  {
    var pc :| 0 <= pc < |prog| && prog[pc] == Match && Reach(prog, env, 0, pc, |env.text|);
    var k: nat :| Run(prog, env, 0, |prog|, 0, 0, pc, |env.text|, k);
    RunMade(prog, env, 0, 0, pc, |env.text|, k);
    var rands := RunGenerated(prog, generosity, whitespace, limit, env, 0, 0, k);
    assert env.text[..0] == "";
  }

  /** So does every printable text in the language of a sentence without anchors. */
  lemma SentenceGenerated(re: Re, prog: seq<Inst>, generosity: nat, whitespace: nat, limit: nat, env: Env)
    requires ReWritten(re) && Compilation.ReCounts(re)
    requires Built(Sentences.PrintRe(re)) == Ok(Exe(prog)) && AnchorFree(prog)
    requires Percentage(generosity) && Percentage(whitespace) && |env.text| < limit && !env.icase
    requires MatchRe(re, env, 0, |env.text|)
    requires forall q :: 0 <= q < |env.text| ==> PrintableRange(env.text[q])
    ensures exists rands :: Walk(prog, generosity, whitespace, limit, rands, 0, "") == Some(env.text)
  {
    Searching.SentenceMeaning(re, prog, env, 0, |env.text|);
    PrintableGenerated(prog, generosity, whitespace, limit, env);
  }
}
