/** librxvm/randinput.c: a random string made by walking the program. The values of rand() are a
    parameter; when they run out the walk is given up, so what is said of a finished walk holds
    for every sequence of random values. */
module RandInput {
  import opened Regex
  import opened Program
  import opened CodeMeaning
  import SimpleMatch

  /** rand_range, for the random value rand. */
  function RandRange(low: nat, high: nat, rand: nat): (r: nat)
    requires low <= high
    ensures low <= r <= high
  {
    low + rand % (high - low + 1)
  }

  /** choice: true with about the given percentage. */
  predicate Choice(prob: nat, rand: nat) { RandRange(0, 100, rand) < prob }

  predicate PrintableRange(c: char) { ' ' <= c <= '~' }

  /** The set has every character from ' ' to '~'. */
  predicate Full(members: string) {
    forall c: char :: PrintableRange(c) ==> c in members
  }

  /** Every negated class leaves some printable character out. */
  predicate Negatable(prog: seq<Inst>) {
    forall k :: 0 <= k < |prog| && prog[k].NClass? ==> !Full(prog[k].members)
  }

  /** No instruction asks for the terminator. */
  predicate NoNul(prog: seq<Inst>) {
    forall k :: 0 <= k < |prog| ==> prog[k] != Char('\0') && (prog[k].Class? ==> NulFree(prog[k].members))
  }

  /** The first character from lo on, and before hi, that is no member; hi if there is none. */
  function FirstOut(members: string, lo: int, hi: int): (r: int)
    requires 0 <= lo <= hi <= 127
    ensures lo <= r <= hi && (r < hi ==> r as char !in members)
    ensures forall c: char :: lo <= c as int < r ==> c in members
    decreases hi - lo
  {
    if lo == hi || lo as char !in members then lo else FirstOut(members, lo + 1, hi)
  }

  /** What find_nchar comes to: from a random printable character upwards, once around, the first
      one that is not a member; 0 only if there is none. */
  function NotMember(members: string, rand: nat): (c: char)
    ensures if Full(members) then c == '\0' else PrintableRange(c) && c !in members
  {
    var up := FirstOut(members, RandRange(32, 126, rand), 127);
    var again := FirstOut(members, 32, 127);
    if up < 127 then up as char else if again < 127 then again as char
    else
      assert forall c: char :: PrintableRange(c) ==> 32 <= c as int < again;
      '\0'
  }

  /** find_nchar. */
  method FindNChar(members: string, rand: nat) returns (c: char)
    ensures c == NotMember(members, rand)
  {
    var wraps := 0;
    c := RandRange(32, 126, rand) as char;
    ghost var start := c as int;
    var i := 0;
    while i < |members|
      invariant 0 <= i <= |members| && 0 <= wraps <= 1 && PrintableRange(c)
      invariant c !in members[..i]
      invariant if wraps == 0 then FirstOut(members, c as int, 127) == FirstOut(members, start, 127)
                else FirstOut(members, start, 127) == 127 &&
                     FirstOut(members, c as int, 127) == FirstOut(members, 32, 127)
      decreases 1 - wraps, 126 - c as int, |members| - i
    {
      if c == members[i] {
        assert c in members;
        if c < '~' {
          c := (c as int + 1) as char;
        } else {
          c := ' ';
          wraps := wraps + 1;
        }
        if wraps > 1 {
          return '\0';
        }
        i := 0;
      } else {
        i := i + 1;
      }
    }
    assert members[..i] == members;
  }

  // ----- runs on a text that grows -----

  lemma {:induction false} RunOnMore(prog: seq<Inst>, env: Env, more: string, pc: int, p: int, k: nat)
    requires AnchorFree(prog) && p <= |env.text| && Run(prog, env, 0, |prog|, 0, 0, pc, p, k)
    ensures Run(prog, env.(text := env.text + more), 0, |prog|, 0, 0, pc, p, k)
    decreases k
  {
    if k != 0 {
      var env' := env.(text := env.text + more);
      var m, q := RunLast(prog, env, 0, |prog|, 0, 0, pc, p, k);
      RunOnMore(prog, env, more, m, q, k - 1);
      assert Step(prog, env', m, q, pc, p);
      assert Run(prog, env', 0, |prog|, pc, p, pc, p, 0);
      RunStep(prog, env', 0, |prog|, m, q, pc, p, pc, p, 0);
      RunConcat(prog, env', 0, |prog|, 0, 0, m, q, pc, p, k - 1, 1);
    }
  }

  /** The text so far takes the program to pc. */
  ghost predicate WalkedTo(prog: seq<Inst>, multiline: bool, out: string, pc: int) {
    Reach(prog, Env(out, false, multiline), 0, pc, |out|)
  }

  lemma WalkChar(prog: seq<Inst>, multiline: bool, out: string, pc: int, c: char)
    requires AnchorFree(prog) && WalkedTo(prog, multiline, out, pc)
    requires 0 <= pc < |prog| && Consumes(prog[pc], false, c)
    ensures WalkedTo(prog, multiline, out + [c], pc + 1)
  {
    var env := Env(out, false, multiline);
    var k: nat :| Run(prog, env, 0, |prog|, 0, 0, pc, |out|, k);
    RunOnMore(prog, env, [c], pc, |out|, k);
    assert Reach(prog, Env(out + [c], false, multiline), 0, pc, |out|);
    ReachStep(prog, Env(out + [c], false, multiline), 0, pc, |out|, pc + 1, |out| + 1);
  }

  lemma WalkTo(prog: seq<Inst>, multiline: bool, out: string, pc: int, pc': int)
    requires WalkedTo(prog, multiline, out, pc) && Epsilon(prog, Env(out, false, multiline), |out|, pc, pc')
    ensures WalkedTo(prog, multiline, out, pc')
  {
    ReachStep(prog, Env(out, false, multiline), 0, pc, |out|, pc', |out|);
  }

  // ----- the walk -----

  /** The character made up for the dot: never a newline. */
  function ForDot(whitespace: nat, first: nat, second: nat): (c: char)
    ensures c != '\n' && c != '\0'
  {
    if Choice(whitespace, first) then
      var c := RandRange(7, 13, second) as char;
      if c == '\n' then ' ' else c
    else RandRange(32, 126, second) as char
  }

  /** How many random values it takes to write a character. */
  function Needs(inst: Inst): (n: nat) {
    match inst
    case Any => 2
    case Class(_) => 1
    case NClass(_) => 1
    case _ => 0
  }

  predicate Writes(inst: Inst) { inst.Char? || inst.Any? || (inst.Class? && inst.members != "") || inst.NClass? }

  /** The character written for an instruction that reads one. */
  function Written(inst: Inst, whitespace: nat, rands: seq<nat>): char
    requires Writes(inst) && |rands| >= Needs(inst)
  {
    match inst
    case Char(c) => c
    case Any => ForDot(whitespace, rands[0], rands[1])
    case Class(members) => members[RandRange(0, |members| - 1, rands[0])]
    case NClass(members) => NotMember(members, rands[0])
  }

  /** The walk from ip on, with `out` written so far. */
  function Walk(prog: seq<Inst>, generosity: nat, whitespace: nat, limit: nat, rands: seq<nat>, ip: int, out: string):
      Option<string>
    requires ProgramOk(prog) && 0 <= ip < |prog|
    decreases |rands|, |prog| - ip
  {
    match prog[ip]
    case Match => Some(out)
    case StartOfLine =>
      var newline := if |out| > 0 && out[|out| - 1] != '\n' then ['\n'] else [];
      Walk(prog, generosity, whitespace, limit, rands, ip + 1, out + newline)
    case EndOfLine =>
      var newline := if prog[ip + 1] != Char('\n') then ['\n'] else [];
      Walk(prog, generosity, whitespace, limit, rands, ip + 1, out + newline)
    case Branch(x, y) =>
      if rands == [] then None
      else
        var val := if |out| >= limit then 0 else generosity;
        Walk(prog, generosity, whitespace, limit, rands[1..], if Choice(val, rands[0]) then x else y, out)
    case Jmp(x) => Walk(prog, generosity, whitespace, limit, rands, x, out)
    case _ =>
      var n := Needs(prog[ip]);
      if |rands| < n then None
      else
        Walk(prog, generosity, whitespace, limit, rands[n..], ip + 1, out + [Written(prog[ip], whitespace, rands)])
  }

  /** A walk that comes to the end has written a text that the program accepts as a whole. */
  lemma {:induction false} WalkAccepted(prog: seq<Inst>, generosity: nat, whitespace: nat, limit: nat, rands: seq<nat>,
                                        ip: int, out: string, multiline: bool)
    requires ProgramOk(prog) && AnchorFree(prog) && Negatable(prog) && 0 <= ip < |prog|
    requires WalkedTo(prog, multiline, out, ip)
    ensures var r := Walk(prog, generosity, whitespace, limit, rands, ip, out);
      r.Some? ==> Accepts(prog, Env(r.value, false, multiline), 0, |r.value|)
    decreases |rands|, |prog| - ip
  {
    match prog[ip]
    case Match =>
    case Branch(x, y) =>
      if rands != [] {
        var next := if Choice(if |out| >= limit then 0 else generosity, rands[0]) then x else y;
        WalkTo(prog, multiline, out, ip, next);
        WalkAccepted(prog, generosity, whitespace, limit, rands[1..], next, out, multiline);
      }
    case Jmp(x) =>
      WalkTo(prog, multiline, out, ip, x);
      WalkAccepted(prog, generosity, whitespace, limit, rands, x, out, multiline);
    case StartOfLine => assert false;
    case EndOfLine => assert false;
    case _ =>
      if |rands| >= Needs(prog[ip]) {
        var c := Written(prog[ip], whitespace, rands);
        WalkChar(prog, multiline, out, ip, c);
        WalkAccepted(prog, generosity, whitespace, limit, rands[Needs(prog[ip])..], ip + 1, out + [c], multiline);
      }
  }

  /** It has no terminator in it, if no instruction asks for one. */
  lemma {:induction false} WalkNulFree(prog: seq<Inst>, generosity: nat, whitespace: nat, limit: nat, rands: seq<nat>,
                                       ip: int, out: string)
    requires ProgramOk(prog) && NoNul(prog) && Negatable(prog) && 0 <= ip < |prog| && NulFree(out)
    ensures var r := Walk(prog, generosity, whitespace, limit, rands, ip, out); r.Some? ==> NulFree(r.value)
    decreases |rands|, |prog| - ip
  {
    match prog[ip]
    case Match =>
    case Branch(x, y) =>
      if rands != [] {
        var next := if Choice(if |out| >= limit then 0 else generosity, rands[0]) then x else y;
        WalkNulFree(prog, generosity, whitespace, limit, rands[1..], next, out);
      }
    case Jmp(x) => WalkNulFree(prog, generosity, whitespace, limit, rands, x, out);
    case StartOfLine =>
      var newline := if |out| > 0 && out[|out| - 1] != '\n' then ['\n'] else [];
      WalkNulFree(prog, generosity, whitespace, limit, rands, ip + 1, out + newline);
    case EndOfLine =>
      var newline := if prog[ip + 1] != Char('\n') then ['\n'] else [];
      WalkNulFree(prog, generosity, whitespace, limit, rands, ip + 1, out + newline);
    case _ =>
      if |rands| >= Needs(prog[ip]) {
        var c := Written(prog[ip], whitespace, rands);
        WalkNulFree(prog, generosity, whitespace, limit, rands[Needs(prog[ip])..], ip + 1, out + [c]);
      }
  }

  /** rxvm_gen on a program. If the walk comes to the end, its text is accepted as a whole; and
      once the limit is reached, fewer than |prog| more instructions are executed. */
  method Generate(prog: seq<Inst>, generosity: nat, whitespace: nat, limit: nat, rands: seq<nat>)
    returns (r: Option<string>, ghost late: nat)
    requires ProgramOk(prog)
    ensures r == Walk(prog, generosity, whitespace, limit, rands, 0, "")
    ensures late < |prog|
    ensures r.Some? && AnchorFree(prog) && Negatable(prog) ==>
      forall multiline :: Accepts(prog, Env(r.value, false, multiline), 0, |r.value|)
    ensures r.Some? && NoNul(prog) && Negatable(prog) ==> NulFree(r.value)
  {
    WalkSound(prog, generosity, whitespace, limit, rands);
    var out, ip, used := "", 0, 0;
    late := 0;
    ghost var goal := Walk(prog, generosity, whitespace, limit, rands, 0, "");
    assert rands[0..] == rands;
    while prog[ip] != Match
      invariant 0 <= ip < |prog| && 0 <= used <= |rands|
      invariant Walk(prog, generosity, whitespace, limit, rands[used..], ip, out) == goal
      invariant late <= ip && (late > 0 ==> |out| >= limit)
      decreases |rands| - used, |prog| - ip
    {
      if |out| >= limit { late := late + 1; }
      ghost var rest := rands[used..];
      assert used < |rands| ==> rest[0] == rands[used] && rest[1..] == rands[used + 1..];
      assert used + 2 <= |rands| ==> rest[1] == rands[used + 1] && rest[2..] == rands[used + 2..];
      match prog[ip] {
        case Char(c) =>
          out := out + [c];
          ip := ip + 1;
        case Any =>
          if used + 2 > |rands| { return None, late; }
          var c := AnyChoice(whitespace, rands[used], rands[used + 1]);
          out := out + [c];
          used := used + 2;
          ip := ip + 1;
        case StartOfLine =>
          if |out| > 0 && out[|out| - 1] != '\n' {
            out := out + ['\n'];
          } else {
            assert out + [] == out;
          }
          ip := ip + 1;
        case EndOfLine =>
          if prog[ip + 1] != Char('\n') {
            out := out + ['\n'];
          } else {
            assert out + [] == out;
          }
          ip := ip + 1;
        case Class(members) =>
          if used + 1 > |rands| { return None, late; }
          out := out + [members[RandRange(0, |members| - 1, rands[used])]];
          used := used + 1;
          ip := ip + 1;
        case NClass(members) =>
          if used + 1 > |rands| { return None, late; }
          var c := FindNChar(members, rands[used]);
          out := out + [c];
          used := used + 1;
          ip := ip + 1;
        case Branch(x, y) =>
          if used + 1 > |rands| { return None, late; }
          var val := if |out| >= limit then 0 else generosity;
          ip := if Choice(val, rands[used]) then x else y;
          used := used + 1;
        case Jmp(x) =>
          ip := x;
      }
    }
    r := Some(out);
  }

  lemma WalkSound(prog: seq<Inst>, generosity: nat, whitespace: nat, limit: nat, rands: seq<nat>)
    requires ProgramOk(prog)
    ensures var r := Walk(prog, generosity, whitespace, limit, rands, 0, "");
      && (r.Some? && AnchorFree(prog) && Negatable(prog) ==>
            forall multiline :: Accepts(prog, Env(r.value, false, multiline), 0, |r.value|))
      && (r.Some? && NoNul(prog) && Negatable(prog) ==> NulFree(r.value))
  {
    if AnchorFree(prog) && Negatable(prog) {
      forall multiline
        ensures var r := Walk(prog, generosity, whitespace, limit, rands, 0, "");
          r.Some? ==> Accepts(prog, Env(r.value, false, multiline), 0, |r.value|)
      {
        assert Run(prog, Env("", false, multiline), 0, |prog|, 0, 0, 0, 0, 0);
        WalkAccepted(prog, generosity, whitespace, limit, rands, 0, "", multiline);
      }
    }
    if NoNul(prog) && Negatable(prog) {
      WalkNulFree(prog, generosity, whitespace, limit, rands, 0, "");
    }
  }

  /** The choice of the character for the dot. */
  method AnyChoice(whitespace: nat, first: nat, second: nat) returns (c: char)
    ensures c == ForDot(whitespace, first, second)
  {
    if Choice(whitespace, first) {
      c := RandRange(7, 13, second) as char;
      if c == '\n' {
        c := ' ';
      }
    } else {
      c := RandRange(32, 126, second) as char;
    }
  }

  /** rxvm_gen on an expression of literals: the literals without their backslashes. */
  method GenerateLiterals(simple: string) returns (r: string)
    requires SimpleMatch.WellEscaped(simple)
    ensures r == SimpleMatch.Unescape(simple) && SimpleMatch.SameText(false, SimpleMatch.Unescape(simple), r)
  {
    r := "";
    var i := 0;
    assert simple[0..] == simple;
    while i < |simple|
      invariant 0 <= i <= |simple| && SimpleMatch.WellEscaped(simple[i..])
      invariant r + SimpleMatch.Unescape(simple[i..]) == SimpleMatch.Unescape(simple)
    {
      ghost var rest := simple[i..];
      if simple[i] == '\\' {
        i := i + 1;
        assert rest[2..] == simple[i + 1..];
      } else {
        assert rest[1..] == simple[i + 1..];
      }
      r := r + [simple[i]];
      i := i + 1;
    }
  }
}
