/** librxvm/vm.c: the interpreter that runs all threads of a program in lock step. */
module Vm {
  import opened Regex
  import opened Program
  import opened CodeMeaning
  import opened ThreadSets

  // ----- thread lists -----

  /** The first n entries of a thread list are distinct instructions, and the lookup table
      marks exactly those. */
  predicate ListOk(list: seq<int>, lookup: seq<bool>, n: int) {
    && |list| == |lookup|
    && 0 <= n <= |list|
    && (forall t :: 0 <= t < n ==> 0 <= list[t] < |list|)
    && (forall t, u :: 0 <= t < u < n ==> list[t] != list[u])
    && (forall v :: 0 <= v < |lookup| ==> (lookup[v] <==> v in list[..n]))
  }

  /** Distinct numbers below size, val not among them: there are fewer than size. */
  lemma RoomLeft(s: seq<int>, size: int, val: int)
    requires forall t :: 0 <= t < |s| ==> 0 <= s[t] < size
    requires forall t, u :: 0 <= t < u < |s| ==> s[t] != s[u]
    requires 0 <= val < size && val !in s
    ensures |s| < size
  {
    DistinctBelow(s + [val], size);
  }

  lemma {:induction false} DistinctBelow(s: seq<int>, size: int)
    requires 0 <= size
    requires forall t :: 0 <= t < |s| ==> 0 <= s[t] < size
    requires forall t, u :: 0 <= t < u < |s| ==> s[t] != s[u]
    ensures |s| <= size
    decreases size
  {
    if |s| > 0 { assert 0 <= s[0] < size; }
    if size != 0 {
      if t :| 0 <= t < |s| && s[t] == size - 1 {
        var rest := s[..t] + s[t + 1..];
        forall u | 0 <= u < |rest| ensures 0 <= rest[u] < size - 1 {
          assert rest[u] == s[if u < t then u else u + 1];
        }
        DistinctBelow(rest, size - 1);
      } else {
        DistinctBelow(s, size - 1);
      }
    }
  }

  method AddThread(list: array<int>, lookup: array<bool>, n: int, val: int) returns (n': int)
    requires list as object != lookup
    requires ListOk(list[..], lookup[..], n) && 0 <= val < lookup.Length
    modifies list, lookup
    ensures ListOk(list[..], lookup[..], n')
    ensures n <= n' && list[..n] == old(list[..n])
    ensures forall v :: v in list[..n'] <==> v == val || v in old(list[..n])
  {
    n' := n;
    if !lookup[val] {
      RoomLeft(list[..n], list.Length, val);
      lookup[val] := true;
      list[n'] := val;
      n' := n' + 1;
      assert list[..n'] == old(list[..n]) + [val];
    }
  }

  // ----- the inner loop over the current list -----

  /** The first t threads of the list have been run on character c: all are threads of the
      attempt, where they lead without reading is in the list, and the next list holds where
      they go by reading c. The flag says whether Match was among them. */
  ghost predicate Walked(prog: seq<Inst>, env: Env, st: int, p: int, curr: seq<int>, t: int, next: seq<int>, c: char,
                         hit: bool) {
    && 0 <= t <= |curr| && (hit <==> |prog| - 1 in curr[..t])
    && (forall v :: 0 <= v < |prog| && Arrives(prog, env, st, p, v) ==> v in curr)
    && (forall v :: v in curr ==> v in ThreadsAt(prog, env, st, p))
    && (forall v, w :: v in curr[..t] && Epsilon(prog, env, p, v, w) ==> w in curr)
    && (forall v :: v in next <==> 0 < v <= |prog| && v - 1 in curr[..t] && Consumes(prog[v - 1], env.icase, c))
  }

  lemma WalkStart(prog: seq<Inst>, env: Env, st: int, p: int, curr: seq<int>, next: seq<int>, c: char)
    requires ProgramOk(prog) && 0 <= st <= p <= |env.text| && next == []
    requires forall v :: v in curr <==> 0 <= v < |prog| && Arrives(prog, env, st, p, v)
    ensures Walked(prog, env, st, p, curr, 0, next, c, false)
  {
    forall v | v in curr ensures v in ThreadsAt(prog, env, st, p) {
      ArrivesReach(prog, env, st, p, v);
    }
  }

  lemma WalkStep(prog: seq<Inst>, env: Env, st: int, p: int, before: seq<int>, t: int, next: seq<int>,
                 after: seq<int>, next': seq<int>, c: char, hit: bool)
    requires ProgramOk(prog) && Walked(prog, env, st, p, before, t, next, c, hit)
    requires t < |before| && before <= after && 0 <= before[t] < |prog|
    requires forall v :: v in after <==> v in before || Epsilon(prog, env, p, before[t], v)
    requires forall v :: v in next' <==> v in next || (Consumes(prog[before[t]], env.icase, c) && v == before[t] + 1)
    ensures Walked(prog, env, st, p, after, t + 1, next', c, hit || prog[before[t]] == Match)
    ensures prog[before[t]] == Match ==> Accepts(prog, env, st, p)
  {
    var ii := before[t];
    assert ii in before;
    assert after[..t + 1] == before[..t] + [ii];
    forall v | v in after ensures v in ThreadsAt(prog, env, st, p) {
      if v !in before {
        ReachStep(prog, env, st, ii, p, v, p);
        ProgramStep(prog, env, ii, p, v, p);
      }
    }
  }

  /** At the end of the list, the list is all the threads. */
  lemma WalkEnd(prog: seq<Inst>, env: Env, st: int, p: int, curr: seq<int>, next: seq<int>, c: char, hit: bool)
    requires ProgramOk(prog) && 0 <= st <= p <= |env.text| && Walked(prog, env, st, p, curr, |curr|, next, c, hit)
    ensures forall v :: v in curr <==> v in ThreadsAt(prog, env, st, p)
    ensures forall v :: v in next <==> v - 1 in ThreadsAt(prog, env, st, p) && Consumes(prog[v - 1], env.icase, c)
    ensures Accepts(prog, env, st, p) <==> hit
  {
    assert curr[..|curr|] == curr;
    var all := set v | v in curr;
    forall v | v in ThreadsAt(prog, env, st, p) ensures v in curr {
      var k: nat :| Run(prog, env, 0, |prog|, 0, st, v, p, k);
      ClosureComplete(prog, env, st, p, all, v, k);
    }
  }

  class Threads {
    const prog: seq<Inst>
    const input: string
    const icase: bool
    const nongreedy: bool
    const multiline: bool
    const search: bool

    var chars: int
    var matchStart: int
    var matchEnd: int
    var cp: array<int>
    var np: array<int>
    var cpLookup: array<bool>
    var npLookup: array<bool>
    var csize: int
    var nsize: int
    var lastinput: char

    ghost function E(): Env { Env(input, icase, multiline) }

    /** The tables have one slot an instruction and do not overlap; both lists are sound. */
    ghost predicate Valid()
      reads this, cp, np, cpLookup, npLookup
    {
      && ProgramOk(prog) && NulFree(input)
      && cp != np && cpLookup != npLookup
      && cp as object !in {cpLookup as object, npLookup} && np as object !in {cpLookup as object, npLookup}
      && cp.Length == np.Length == |prog|
      && ListOk(cp[..], cpLookup[..], csize)
      && ListOk(np[..], npLookup[..], nsize)
    }

    ghost function Curr(): seq<int>
      requires 0 <= csize <= cp.Length
      reads this, cp
    {
      cp[..csize]
    }

    ghost function Next(): seq<int>
      requires 0 <= nsize <= np.Length
      reads this, np
    {
      np[..nsize]
    }

    /** Position p is being looked at: its character has been read. */
    ghost predicate At(p: int)
      reads this
    {
      && 0 <= p <= |input| && chars == p + 1
      && (p > 0 ==> lastinput == input[p - 1])
    }

    ghost predicate Tables(a: array<int>, b: array<int>, c: array<bool>, d: array<bool>)
      reads this
    {
      cp == a && np == b && cpLookup == c && npLookup == d
    }

    /** vm_init. */
    constructor (prog: seq<Inst>, input: string, icase: bool, nongreedy: bool, multiline: bool, search: bool)
      requires ProgramOk(prog) && NulFree(input)
      ensures this.prog == prog && this.input == input && this.icase == icase && this.nongreedy == nongreedy
      ensures this.multiline == multiline && this.search == search
      ensures Valid() && chars == 0 && matchStart == 0 && matchEnd == 0 && csize == 0 && nsize == 0
      ensures fresh(cp) && fresh(np) && fresh(cpLookup) && fresh(npLookup)
    {
      this.prog, this.input := prog, input;
      this.icase, this.nongreedy, this.multiline, this.search := icase, nongreedy, multiline, search;
      chars, matchStart, matchEnd, lastinput, csize, nsize := 0, 0, 0, '\0', 0, 0;
      cp := new int[|prog|];
      np := new int[|prog|];
      cpLookup := new bool[|prog|](_ => false);
      npLookup := new bool[|prog|](_ => false);
    }

    method IsSol(ghost p: int) returns (r: bool)
      requires At(p)
      ensures r == AtStart(E(), p)
    {
      if chars == 1 {
        r := true;
      } else {
        r := multiline && lastinput == '\n';
      }
    }

    method IsEol(c: char, ghost p: int) returns (r: bool)
      requires At(p) && NulFree(input) && c == CharAt(input, p)
      ensures r == AtEnd(E(), p)
    {
      if c == '\0' {
        r := true;
      } else {
        r := multiline && c == '\n';
      }
    }

    method AddThreadCurr(val: int)
      requires Valid() && 0 <= val < |prog|
      modifies `csize, cp, cpLookup
      ensures Valid() && old(Curr()) <= Curr() && Next() == old(Next())
      ensures forall v :: v in Curr() <==> v == val || v in old(Curr())
    {
      csize := AddThread(cp, cpLookup, csize, val);
      assert old(Curr()) == Curr()[..old(csize)];
    }

    method AddThreadNext(val: int)
      requires Valid() && 0 <= val < |prog|
      modifies `nsize, np, npLookup
      ensures Valid() && Curr() == old(Curr())
      ensures forall v :: v in Next() <==> v == val || v in old(Next())
    {
      nsize := AddThread(np, npLookup, nsize, val);
    }

    /** The instructions that read nothing: their targets join the current list. */
    method Follow(ii: int, c: char, ghost p: int)
      requires Valid() && At(p) && c == CharAt(input, p) && 0 <= ii < |prog|
      requires prog[ii].StartOfLine? || prog[ii].EndOfLine? || prog[ii].Branch? || prog[ii].Jmp?
      modifies `csize, cp, cpLookup
      ensures Valid() && old(Curr()) <= Curr() && Next() == old(Next())
      ensures forall v :: v in Curr() <==> v in old(Curr()) || Epsilon(prog, E(), p, ii, v)
    {
      match prog[ii] {
        case StartOfLine =>
          var sol := IsSol(p);
          if sol { AddThreadCurr(ii + 1); }
        case EndOfLine =>
          var eol := IsEol(c, p);
          if eol { AddThreadCurr(ii + 1); }
        case Branch(x, y) =>
          AddThreadCurr(x);
          AddThreadCurr(y);
        case Jmp(x) =>
          AddThreadCurr(x);
      }
    }

    /** One turn of the inner loop: instruction ii on character c. */
    method Dispatch(ii: int, c: char, ghost p: int) returns (stop: bool)
      requires Valid() && At(p) && c == CharAt(input, p) && 0 <= ii < |prog|
      modifies `csize, `nsize, `matchEnd, cp, np, cpLookup, npLookup
      ensures Valid() && old(Curr()) <= Curr()
      ensures forall v :: v in Curr() <==> v in old(Curr()) || Epsilon(prog, E(), p, ii, v)
      ensures forall v :: v in Next() <==> v in old(Next()) || (Consumes(prog[ii], icase, c) && v == ii + 1)
      ensures matchEnd == if prog[ii] == Match then p + 1 else old(matchEnd)
      ensures stop <==> prog[ii] == Match && nongreedy
    {
      stop := false;
      var inst := prog[ii];
      if inst == Match {
        matchEnd := chars;
        stop := nongreedy;
      } else if inst.StartOfLine? || inst.EndOfLine? || inst.Branch? || inst.Jmp? {
        Follow(ii, c, p);
      } else if Consumes(inst, icase, c) {
        AddThreadNext(ii + 1);
      }
    }

    /** The inner loop over the current list, which grows while it is walked. Afterwards the
        list is the set of instructions runs can be at, and the next list their successors. */
    method RunThreads(c: char, ghost st: int, ghost p: int) returns (stop: bool, ghost steps: nat)
      requires Valid() && At(p) && c == CharAt(input, p) && 0 <= st <= p && nsize == 0
      requires forall v :: v in Curr() <==> 0 <= v < |prog| && Arrives(prog, E(), st, p, v)
      modifies `csize, `nsize, `matchEnd, cp, np, cpLookup, npLookup
      ensures Valid() && steps <= |prog|
      ensures stop ==> nongreedy && Accepts(prog, E(), st, p) && matchEnd == p + 1
      ensures !stop ==>
        && (forall v :: v in Curr() <==> v in ThreadsAt(prog, E(), st, p))
        && (forall v :: v in Next() <==>
              v - 1 in ThreadsAt(prog, E(), st, p) && Consumes(prog[v - 1], icase, c))
        && matchEnd == (if Accepts(prog, E(), st, p) then p + 1 else old(matchEnd))
        && (nongreedy ==> !Accepts(prog, E(), st, p))
    {
      var t := 0;
      ghost var hit := false;
      stop, steps := false, 0;
      WalkStart(prog, E(), st, p, Curr(), Next(), c);
      while t < csize
        invariant Valid() && 0 <= t <= csize && steps == t
        invariant Walked(prog, E(), st, p, Curr(), t, Next(), c, hit)
        invariant matchEnd == if hit then p + 1 else old(matchEnd)
        invariant nongreedy ==> !hit
        decreases |prog| - t
      {
        var ii := cp[t];
        ghost var before, next := Curr(), Next();
        assert ii == before[t];
        stop := Dispatch(ii, c, p);
        WalkStep(prog, E(), st, p, before, t, next, Curr(), Next(), c, hit);
        t, steps, hit := t + 1, steps + 1, hit || prog[ii] == Match;
        if stop {
          return;
        }
      }
      WalkEnd(prog, E(), st, p, Curr(), Next(), c, hit);
    }

    /** memset of a lookup table. */
    static method ClearLookup(lookup: array<bool>)
      modifies lookup
      ensures forall v :: 0 <= v < lookup.Length ==> !lookup[v]
    {
      forall v | 0 <= v < lookup.Length { lookup[v] := false; }
    }

    /** The short way to empty the current list: only its own marks are taken back. */
    method ForgetCurr()
      requires Valid()
      modifies `csize, cpLookup
      ensures Valid() && csize == 0 && Next() == old(Next())
    {
      var i := 0;
      while i < csize
        invariant 0 <= i <= csize == old(csize) && cp[..] == old(cp[..]) && np[..] == old(np[..])
        invariant npLookup[..] == old(npLookup[..])
        invariant forall v :: 0 <= v < cpLookup.Length ==> (cpLookup[v] ==> v in cp[i..csize])
      {
        cpLookup[cp[i]] := false;
        i := i + 1;
      }
      csize := 0;
    }

    /** The threads for the next character become the current ones. */
    method Swap()
      requires Valid()
      modifies this, npLookup, cpLookup
      ensures Valid() && Curr() == old(Next()) && nsize == 0
      ensures Tables(old(np), old(cp), old(npLookup), old(cpLookup))
      ensures chars == old(chars) && matchStart == old(matchStart) && matchEnd == old(matchEnd)
      ensures lastinput == old(lastinput)
    {
      cp, np := np, cp;
      csize, nsize := nsize, 0;
      cpLookup, npLookup := npLookup, cpLookup;
      ClearLookup(npLookup);
      assert cp[..csize] == old(Next());
    }

    /** Where the scan stands: the attempt at matchStart has reached position p. */
    ghost predicate Scanning(p: int)
      reads this
    {
      && 0 <= matchStart <= p <= |input|
      && (forall q :: matchStart <= q < p ==> Alive(prog, E(), matchStart, q))
      && matchEnd == LastAccept(prog, E(), matchStart, matchStart, p - 1) + 1
      && (nongreedy ==> matchEnd == 0)
      && Execution(prog, E(), search, nongreedy, matchStart) == Execution(prog, E(), search, nongreedy, 0)
    }

    /** The top of the loop, position p being next. */
    ghost predicate Ready(p: int)
      reads this, cp, np, cpLookup, npLookup
    {
      && Valid() && nsize == 0 && Scanning(p)
      && forall v :: v in Curr() <==> 0 <= v < |prog| && Arrives(prog, E(), matchStart, p, v)
    }

    /** The character at p has been read, and c is that character. */
    ghost predicate Have(c: char, p: int)
      reads this
    {
      At(p) && c == CharAt(input, p)
    }

    method Start()
      requires Valid() && chars == 0 && matchEnd == 0
      modifies `matchStart, `csize, `nsize, cp, cpLookup, npLookup
      ensures Ready(0)
    {
      nsize, csize := 0, 0;
      ClearLookup(cpLookup);
      ClearLookup(npLookup);
      matchStart := chars;
      AddThreadCurr(0);
    }

    method ReadChar(c: char, ghost p: int) returns (c': char)
      requires Ready(p) && chars == p && (p > 0 ==> c == input[p - 1])
      modifies `lastinput, `chars
      ensures Ready(p) && Have(c', p)
    {
      lastinput := c;
      c' := CharAt(input, chars);
      chars := chars + 1;
    }

    /** No thread is left and nothing matched: start again, at p unless the attempt began there. */
    method Restart(ghost p: int) returns (read: bool)
      requires Valid() && nsize == 0 && chars == p + 1 && matchEnd == 0 && search
      requires 0 <= matchStart <= p < |input|
      requires Dead(prog, E(), matchStart, matchStart) == p && AttemptEnd(prog, E(), nongreedy, matchStart) == -1
      requires Execution(prog, E(), search, nongreedy, matchStart) == Execution(prog, E(), search, nongreedy, 0)
      modifies `matchStart, `csize, cp, cpLookup
      ensures read == (p == old(matchStart))
      ensures matchStart == NextStart(old(matchStart), p) && Ready(matchStart)
    {
      ForgetCurr();
      read := chars - 1 == matchStart;
      matchStart := if read then chars else chars - 1;
      AddThreadCurr(0);
    }

    /** Some thread goes on: its successors are what arrives at p + 1. */
    method Advance(c: char, ghost p: int)
      requires Valid() && nsize > 0 && 0 <= matchStart <= p < |input| && c == input[p]
      requires forall v :: v in Next() <==>
                 v - 1 in ThreadsAt(prog, E(), matchStart, p) && Consumes(prog[v - 1], icase, c)
      requires forall q :: matchStart <= q < p ==> Alive(prog, E(), matchStart, q)
      requires matchEnd == LastAccept(prog, E(), matchStart, matchStart, p) + 1
      requires nongreedy ==> matchEnd == 0
      requires Execution(prog, E(), search, nongreedy, matchStart) == Execution(prog, E(), search, nongreedy, 0)
      modifies this, npLookup, cpLookup
      ensures Ready(p + 1)
      ensures Tables(old(np), old(cp), old(npLookup), old(cpLookup))
      ensures chars == old(chars) && matchStart == old(matchStart) && matchEnd == old(matchEnd)
    {
      SomeNext(p, c);
      Swap();
    }

    /** One turn of the outer loop on the character at p. */
    method Turn(c: char, ghost p: int) returns (over: bool, ret: int, read: bool, ghost next: int, ghost n: nat)
      requires Ready(p) && Have(c, p)
      modifies this, cp, np, cpLookup, npLookup
      ensures n <= |prog| && chars == old(chars)
      ensures over ==> Outcome(ret, matchStart, matchEnd) == Execution(prog, E(), search, nongreedy, 0)
      ensures !over ==> Ready(next) && p < |input|
      ensures !over && read ==> next == p + 1
      ensures !over && !read ==> search && next == p && Have(c, p) && old(matchStart) < p && matchStart == p
      ensures Tables(old(cp), old(np), old(cpLookup), old(npLookup)) ||
              Tables(old(np), old(cp), old(npLookup), old(cpLookup))
    {
      var stop;
      stop, n := RunThreads(c, matchStart, p);
      over, ret, read, next := true, 0, true, p + 1;
      if stop {
        SettledFirst(prog, E(), matchStart, p);
        ret := 1;
      } else if c == '\0' {
        Settled(prog, E(), nongreedy, matchStart, p);
      } else if nsize == 0 {
        NoneNext(p, c);
        Settled(prog, E(), nongreedy, matchStart, p);
        if !search || matchEnd != 0 {
          ret := 1;
        } else {
          over := false;
          read := Restart(p);
          next := matchStart;
        }
      } else {
        over := false;
        Advance(c, p);
      }
    }

    /** The top of the outer loop: the character at p is read next, or it is c and the attempt
        starts again on it. */
    ghost predicate AtTop(read: bool, c: char, p: int)
      reads this, cp, np, cpLookup, npLookup
    {
      && Ready(p) && (search || read)
      && if read then chars == p && (p > 0 ==> c == input[p - 1]) else Have(c, p) && matchStart == p
    }

    /** One turn of the outer loop. */
    method Round(c: char, read: bool, ghost p: int)
      returns (over: bool, ret: int, c': char, read': bool, ghost p': int, ghost n: nat)
      requires AtTop(read, c, p)
      modifies this, cp, np, cpLookup, npLookup
      ensures n <= |prog| && chars == old(chars) + (if read then 1 else 0) && chars <= |input| + 1
      ensures over ==> Outcome(ret, matchStart, matchEnd) == Execution(prog, E(), search, nongreedy, 0)
      ensures !over ==> AtTop(read', c', p') && (read || read')
      ensures Tables(old(cp), old(np), old(cpLookup), old(npLookup)) ||
              Tables(old(np), old(cp), old(npLookup), old(cpLookup))
    {
      c' := c;
      if read {
        c' := ReadChar(c, p);
      }
      over, ret, read', p', n := Turn(c', p);
    }

    /** vm_execute: the outcome is the specified one, and each instruction is dispatched at most
        once for each character, twice when searching. */
    method Execute() returns (ret: int, ghost steps: nat)
      requires Valid() && chars == 0 && matchEnd == 0
      modifies this, cp, np, cpLookup, npLookup
      ensures Outcome(ret, matchStart, matchEnd) == Execution(prog, E(), search, nongreedy, 0)
      ensures steps <= |prog| * ((if search then 2 else 1) * (|input| + 1))
    {
      var c := '\0';
      Start();
      steps := 0;
      ghost var rounds := 0;
      ghost var p := 0;
      var read := true;
      while true
        invariant AtTop(read, c, p)
        invariant Tables(old(cp), old(np), old(cpLookup), old(npLookup)) ||
                  Tables(old(np), old(cp), old(npLookup), old(cpLookup))
        invariant steps <= |prog| * rounds && chars <= |input| + 1
        invariant if search then rounds <= 2 * chars - (if read then 0 else 1) else rounds <= chars
        decreases |input| + 1 - chars, if read then 0 else 1
      {
        var over;
        ghost var n;
        over, ret, c, read, p, n := Round(c, read, p);
        MoreWork(|prog|, rounds, steps, n);
        steps, rounds := steps + n, rounds + 1;
        if over {
          break;
        }
      }
      WorkBound(|prog|, rounds, (if search then 2 else 1) * (|input| + 1));
    }

    lemma NoneNext(p: int, c: char)
      requires Valid() && 0 <= p < |input| && c == input[p] && nsize == 0
      requires forall v :: v in Next() <==>
                 v - 1 in ThreadsAt(prog, E(), matchStart, p) && Consumes(prog[v - 1], icase, c)
      ensures !Alive(prog, E(), matchStart, p)
    {
      forall pc | pc in ThreadsAt(prog, E(), matchStart, p) ensures !Reads(prog, E(), p, pc) {
        assert pc + 1 !in Next();
      }
    }

    lemma SomeNext(p: int, c: char)
      requires Valid() && matchStart <= p && 0 <= p < |input| && c == input[p] && nsize > 0
      requires forall v :: v in Next() <==>
                 v - 1 in ThreadsAt(prog, E(), matchStart, p) && Consumes(prog[v - 1], icase, c)
      ensures Alive(prog, E(), matchStart, p)
      ensures forall v :: v in Next() <==> 0 <= v < |prog| && Arrives(prog, E(), matchStart, p + 1, v)
    {
      var v := Next()[0];
      assert v in Next();
      assert v - 1 in ThreadsAt(prog, E(), matchStart, p) && Reads(prog, E(), p, v - 1);
    }
  }

  lemma MoreWork(size: nat, rounds: nat, steps: nat, n: nat)
    requires steps <= size * rounds && n <= size
    ensures steps + n <= size * (rounds + 1)
  {
  }

  lemma WorkBound(size: nat, rounds: nat, bound: nat)
    requires rounds <= bound
    ensures size * rounds <= size * bound
  {
  }
}
