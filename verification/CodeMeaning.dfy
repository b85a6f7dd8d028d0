/** The code of an expression, wherever it is placed in a program, takes the text from
    position i to position j exactly when the expression matches [i, j). */
module CodeMeaning {
  import opened Regex
  import opened Program
  import opened CodeGen

  // ----- the shapes of code, with no trees involved -----

  lemma ClosedFrag(prog: seq<Inst>, b: int, code: seq<Inst>)
    requires FragAt(prog, b, code) && CodeOk(code)
    ensures Closed(prog, b, b + |code|)
  {
    forall env, pc, p, pc', p' | b <= pc < b + |code| && Step(prog, env, pc, p, pc', p')
      ensures b <= pc' <= b + |code|
    {
      assert prog[b + (pc - b)] == Shift(code[pc - b], pc);
      assert InstOk(code[pc - b], pc - b, |code|);
    }
  }

  /** Nothing is left to do at the end of the range. */
  lemma RunAtEnd(prog: seq<Inst>, env: Env, lo: int, hi: int, i: int, j: int, k: nat)
    requires Run(prog, env, lo, hi, hi, i, hi, j, k)
    ensures k == 0 && i == j
  {
  }

  ghost predicate ThroughBoth(prog: seq<Inst>, env: Env, lo: int, mid: int, hi: int, i: int, j: int) {
    exists m :: Through(prog, env, lo, mid, i, m) && Through(prog, env, mid, hi, m, j)
  }

  lemma ThroughCat(prog: seq<Inst>, env: Env, b: int, l: seq<Inst>, r: seq<Inst>, i: int, j: int)
    requires FragAt(prog, b, l + r) && CodeOk(l) && CodeOk(r)
    ensures Through(prog, env, b, b + |l + r|, i, j) <==>
            ThroughBoth(prog, env, b, b + |l|, b + |l + r|, i, j)
  {
    var mid, e := b + |l|, b + |l + r|;
    FragSplit(prog, b, l, r);
    ClosedFrag(prog, b, l);
    ClosedFrag(prog, mid, r);
    if Through(prog, env, b, e, i, j) {
      var k: nat :| Run(prog, env, b, e, b, i, e, j, k);
      var m, k1 := RunSplit(prog, env, b, mid, b, e, b, i, e, j, k);
      RunNarrow(prog, env, mid, e, b, mid, m, j, k - k1);
      assert Through(prog, env, b, mid, i, m) && Through(prog, env, mid, e, m, j);
    }
    if m :| Through(prog, env, b, mid, i, m) && Through(prog, env, mid, e, m, j) {
      var k1: nat :| Run(prog, env, b, mid, b, i, mid, m, k1);
      var k2: nat :| Run(prog, env, mid, e, mid, m, e, j, k2);
      RunWiden(prog, env, b, mid, b, i, mid, m, k1, b, e);
      RunWiden(prog, env, mid, e, mid, m, e, j, k2, b, e);
      RunConcat(prog, env, b, e, b, i, mid, m, e, j, k1, k2);
    }
  }

  /** A branch in front that may skip the code. */
  lemma ThroughOption(prog: seq<Inst>, env: Env, b: int, code: seq<Inst>, i: int, j: int)
    requires FragAt(prog, b, [Branch(1, |code| + 1)] + code) && CodeOk(code)
    ensures Through(prog, env, b, b + 1 + |code|, i, j) <==>
            i == j || Through(prog, env, b + 1, b + 1 + |code|, i, j)
  {
    var e := b + 1 + |code|;
    FragSplit(prog, b, [Branch(1, |code| + 1)], code);
    ClosedFrag(prog, b + 1, code);
    FragOne(prog, b, Branch(1, |code| + 1));
    if Through(prog, env, b, e, i, j) {
      var k: nat :| Run(prog, env, b, e, b, i, e, j, k);
      var m, q :| Step(prog, env, b, i, m, q) && Run(prog, env, b, e, m, q, e, j, k - 1);
      if m == e {
        RunAtEnd(prog, env, b, e, q, j, k - 1);
      } else {
        RunNarrow(prog, env, b + 1, e, b, b + 1, i, j, k - 1);
      }
    }
    if i == j {
      assert Run(prog, env, b, e, e, i, e, j, 0);
      RunStep(prog, env, b, e, b, i, e, i, e, j, 0);
    }
    if Through(prog, env, b + 1, e, i, j) {
      var k: nat :| Run(prog, env, b + 1, e, b + 1, i, e, j, k);
      RunWiden(prog, env, b + 1, e, b + 1, i, e, j, k, b, e);
      RunStep(prog, env, b, e, b, i, b + 1, i, e, j, k);
    }
  }

  lemma AltParts(prog: seq<Inst>, b: int, l: seq<Inst>, r: seq<Inst>)
    requires FragAt(prog, b, AltCode(l, r)) && CodeOk(l) && CodeOk(r)
    ensures FragAt(prog, b + 1, l) && FragAt(prog, b + |l| + 2, r)
    ensures prog[b] == Branch(b + 1, b + |l| + 2) && prog[b + 1 + |l|] == Jmp(b + |l| + 2 + |r|)
    ensures |AltCode(l, r)| == |l| + 2 + |r|
  {
    var mid := b + 1 + |l|;
    FragSplit(prog, b, [Branch(1, |l| + 2)] + l + [Jmp(|r| + 1)], r);
    FragSplit(prog, b, [Branch(1, |l| + 2)] + l, [Jmp(|r| + 1)]);
    FragSplit(prog, b, [Branch(1, |l| + 2)], l);
    FragOne(prog, b, Branch(1, |l| + 2));
    FragOne(prog, mid, Jmp(|r| + 1));
  }

  lemma AltSound(prog: seq<Inst>, env: Env, b: int, l: seq<Inst>, r: seq<Inst>, i: int, j: int)
    requires FragAt(prog, b, AltCode(l, r)) && CodeOk(l) && CodeOk(r)
    requires Through(prog, env, b, b + |l| + 2 + |r|, i, j)
    ensures Through(prog, env, b + 1, b + 1 + |l|, i, j) || Through(prog, env, b + |l| + 2, b + |l| + 2 + |r|, i, j)
  {
    var mid, e := b + 1 + |l|, b + |l| + 2 + |r|;
    AltParts(prog, b, l, r);
    ClosedFrag(prog, b + 1, l);
    ClosedFrag(prog, mid + 1, r);
    var k: nat :| Run(prog, env, b, e, b, i, e, j, k);
    var m, q :| Step(prog, env, b, i, m, q) && Run(prog, env, b, e, m, q, e, j, k - 1);
    if m == b + 1 {
      var q1, k1 := RunSplit(prog, env, b + 1, mid, b, e, b + 1, i, e, j, k - 1);
      var m2, q2 :| Step(prog, env, mid, q1, m2, q2) && Run(prog, env, b, e, m2, q2, e, j, k - 1 - k1 - 1);
      RunAtEnd(prog, env, b, e, q2, j, k - 1 - k1 - 1);
    } else {
      RunNarrow(prog, env, mid + 1, e, b, mid + 1, i, j, k - 1);
    }
  }

  lemma AltComplete(prog: seq<Inst>, env: Env, b: int, l: seq<Inst>, r: seq<Inst>, i: int, j: int)
    requires FragAt(prog, b, AltCode(l, r)) && CodeOk(l) && CodeOk(r)
    requires Through(prog, env, b + 1, b + 1 + |l|, i, j) || Through(prog, env, b + |l| + 2, b + |l| + 2 + |r|, i, j)
    ensures Through(prog, env, b, b + |l| + 2 + |r|, i, j)
  {
    var mid, e := b + 1 + |l|, b + |l| + 2 + |r|;
    AltParts(prog, b, l, r);
    if Through(prog, env, b + 1, mid, i, j) {
      var k: nat :| Run(prog, env, b + 1, mid, b + 1, i, mid, j, k);
      RunWiden(prog, env, b + 1, mid, b + 1, i, mid, j, k, b, e);
      assert Run(prog, env, b, e, e, j, e, j, 0);
      RunStep(prog, env, b, e, mid, j, e, j, e, j, 0);
      RunConcat(prog, env, b, e, b + 1, i, mid, j, e, j, k, 1);
      RunStep(prog, env, b, e, b, i, b + 1, i, e, j, k + 1);
    } else {
      var k: nat :| Run(prog, env, mid + 1, e, mid + 1, i, e, j, k);
      RunWiden(prog, env, mid + 1, e, mid + 1, i, e, j, k, b, e);
      RunStep(prog, env, b, e, b, i, mid + 1, i, e, j, k);
    }
  }

  lemma ThroughAlt(prog: seq<Inst>, env: Env, b: int, l: seq<Inst>, r: seq<Inst>, i: int, j: int)
    requires FragAt(prog, b, AltCode(l, r)) && CodeOk(l) && CodeOk(r)
    ensures FragAt(prog, b + 1, l) && FragAt(prog, b + |l| + 2, r)
    ensures Through(prog, env, b, b + |AltCode(l, r)|, i, j) <==>
            || Through(prog, env, b + 1, b + 1 + |l|, i, j)
            || Through(prog, env, b + |l| + 2, b + |l| + 2 + |r|, i, j)
  {
    AltParts(prog, b, l, r);
    if Through(prog, env, b, b + |l| + 2 + |r|, i, j) { AltSound(prog, env, b, l, r, i, j); }
    if Through(prog, env, b + 1, b + 1 + |l|, i, j) || Through(prog, env, b + |l| + 2, b + |l| + 2 + |r|, i, j) {
      AltComplete(prog, env, b, l, r, i, j);
    }
  }

  lemma ThroughOne(prog: seq<Inst>, env: Env, b: int, inst: Inst, i: int, j: int)
    requires FragAt(prog, b, [inst]) && !inst.Branch? && !inst.Jmp?
    ensures Through(prog, env, b, b + 1, i, j) <==> Step(prog, env, b, i, b + 1, j)
  {
    FragOne(prog, b, inst);
    if Through(prog, env, b, b + 1, i, j) {
      var k: nat :| Run(prog, env, b, b + 1, b, i, b + 1, j, k);
      var m, q :| Step(prog, env, b, i, m, q) && Run(prog, env, b, b + 1, m, q, b + 1, j, k - 1);
      RunAtEnd(prog, env, b, b + 1, q, j, k - 1);
    }
    if Step(prog, env, b, i, b + 1, j) {
      assert Run(prog, env, b, b + 1, b + 1, j, b + 1, j, 0);
      RunStep(prog, env, b, b + 1, b, i, b + 1, j, b + 1, j, 0);
    }
  }

  // ----- bracketed sets -----

  lemma {:induction false} CharsFromHolds(lo: char, hi: char, d: char)
    requires hi < '\U{7f}'
    ensures d in CharsFrom(lo, hi) <==> lo <= d <= hi
    decreases hi as int - lo as int
  {
    if lo < hi {
      CharsFromHolds((lo as int + 1) as char, hi, d);
    }
  }

  lemma ItemMean(icase: bool, item: Item, c: char)
    requires item.Range? ==> item.from.c < '\U{7f}' && item.to.c < '\U{7f}'
    ensures InClass(icase, ItemMembers(item), c) <==> InItem(icase, item, c)
  {
    var m := ItemMembers(item);
    if item.Range? {
      forall d ensures d in m <==> item.from.c <= d <= item.to.c || item.to.c <= d <= item.from.c {
        CharsFromHolds(item.from.c, item.to.c, d);
        CharsFromHolds(item.to.c, item.from.c, d);
      }
    }
    if InClass(icase, m, c) {
      var k :| 0 <= k < |m| && CharEq(icase, m[k], c);
      assert m[k] in m;
    }
    if InItem(icase, item, c) {
      var d :| d in m && CharEq(icase, d, c);
    }
  }

  lemma InClassConcat(icase: bool, l: string, r: string, c: char)
    ensures InClass(icase, l + r, c) <==> InClass(icase, l, c) || InClass(icase, r, c)
  {
    if k :| 0 <= k < |l| && CharEq(icase, l[k], c) { assert (l + r)[k] == l[k]; }
    if k :| 0 <= k < |r| && CharEq(icase, r[k], c) { assert (l + r)[|l| + k] == r[k]; }
    if k :| 0 <= k < |l + r| && CharEq(icase, (l + r)[k], c) {
      if k >= |l| { assert r[k - |l|] == (l + r)[k]; }
    }
  }

  lemma InItemsFirst(icase: bool, items: seq<Item>, c: char)
    requires items != []
    ensures InItems(icase, items, c) <==> InItem(icase, items[0], c) || InItems(icase, items[1..], c)
  {
    var rest := items[1..];
    if k :| 0 <= k < |rest| && InItem(icase, rest[k], c) { assert items[k + 1] == rest[k]; }
    if k :| 0 <= k < |items| && InItem(icase, items[k], c) {
      if k > 0 { assert rest[k - 1] == items[k]; }
    }
  }

  /** The expanded member string holds what the written items stand for. */
  lemma {:induction false} MembersMean(icase: bool, items: seq<Item>, c: char)
    requires AsciiItems(items)
    ensures InClass(icase, Members(items), c) <==> InItems(icase, items, c)
  {
    if items != [] {
      MembersMean(icase, items[1..], c);
      ItemMean(icase, items[0], c);
      InClassConcat(icase, ItemMembers(items[0]), Members(items[1..]), c);
      InItemsFirst(icase, items, c);
    }
  }

  // ----- iteration -----

  lemma {:induction false} IterateConcat(e: Elem, env: Env, n1: nat, n2: nat, i: int, m: int, j: int)
    requires ElemWritten(e) && Iterate(e, env, n1, i, m) && Iterate(e, env, n2, m, j)
    ensures Iterate(e, env, n1 + n2, i, j)
    decreases n1
  {
    if n1 != 0 {
      var q :| MatchElem(e, env, i, q) && Iterate(e, env, n1 - 1, q, m);
      IterateConcat(e, env, n1 - 1, n2, q, m, j);
    }
  }

  lemma {:induction false} IterateSplit(e: Elem, env: Env, n1: nat, n2: nat, i: int, j: int) returns (m: int)
    requires ElemWritten(e) && Iterate(e, env, n1 + n2, i, j)
    ensures Iterate(e, env, n1, i, m) && Iterate(e, env, n2, m, j)
    decreases n1
  {
    if n1 == 0 {
      m := i;
    } else {
      var q :| MatchElem(e, env, i, q) && Iterate(e, env, n1 + n2 - 1, q, j);
      m := IterateSplit(e, env, n1 - 1, n2, q, j);
    }
  }

  /** Some number of matches, no fewer than lo, no more than lo + extra. */
  ghost predicate IterateWithin(e: Elem, env: Env, lo: nat, extra: nat, i: int, j: int)
    requires ElemWritten(e)
  {
    exists k: nat :: lo <= k <= lo + extra && Iterate(e, env, k, i, j)
  }

  ghost predicate IterateFrom(e: Elem, env: Env, lo: nat, i: int, j: int)
    requires ElemWritten(e)
  {
    exists k: nat :: lo <= k && Iterate(e, env, k, i, j)
  }

  lemma IterateOnce(e: Elem, env: Env, i: int, j: int)
    requires ElemWritten(e)
    ensures Iterate(e, env, 1, i, j) <==> MatchElem(e, env, i, j)
  {
    if MatchElem(e, env, i, j) { assert Iterate(e, env, 0, j, j); }
  }

  lemma WithinAfter(e: Elem, env: Env, n: nat, extra: nat, i: int, j: int)
    requires ElemWritten(e)
    ensures IterateWithin(e, env, n, extra, i, j) <==>
            exists m :: Iterate(e, env, n, i, m) && IterateWithin(e, env, 0, extra, m, j)
  {
    if IterateWithin(e, env, n, extra, i, j) {
      var k: nat :| n <= k <= n + extra && Iterate(e, env, k, i, j);
      var m := IterateSplit(e, env, n, k - n, i, j);
      assert IterateWithin(e, env, 0, extra, m, j);
    }
    if m :| Iterate(e, env, n, i, m) && IterateWithin(e, env, 0, extra, m, j) {
      var k: nat :| k <= extra && Iterate(e, env, k, m, j);
      IterateConcat(e, env, n, k, i, m, j);
    }
  }

  lemma NoneOrSome(e: Elem, env: Env, n: nat, i: int, j: int)
    requires ElemWritten(e) && n > 0
    ensures IterateWithin(e, env, 0, n, i, j) <==> i == j || IterateWithin(e, env, 1, n - 1, i, j)
  {
    assert i == j <==> Iterate(e, env, 0, i, j);
  }

  lemma FromAfter(e: Elem, env: Env, n: nat, lo: nat, i: int, j: int)
    requires ElemWritten(e)
    ensures IterateFrom(e, env, n + lo, i, j) <==>
            exists m :: Iterate(e, env, n, i, m) && IterateFrom(e, env, lo, m, j)
  {
    if IterateFrom(e, env, n + lo, i, j) {
      var k: nat :| n + lo <= k && Iterate(e, env, k, i, j);
      var m := IterateSplit(e, env, n, k - n, i, j);
      assert IterateFrom(e, env, lo, m, j);
    }
    if m :| Iterate(e, env, n, i, m) && IterateFrom(e, env, lo, m, j) {
      var k: nat :| lo <= k && Iterate(e, env, k, m, j);
      IterateConcat(e, env, n, k, i, m, j);
    }
  }

  // ----- trees -----

  lemma {:induction false} ElemMeaning(e: Elem, prog: seq<Inst>, env: Env, b: int, i: int, j: int)
    requires ElemWritten(e) && FragAt(prog, b, ElemCode(e))
    ensures Through(prog, env, b, b + |ElemCode(e)|, i, j) <==> MatchElem(e, env, i, j)
    decreases e, 0, 0
  {
    match e
    case Group(re) => ReMeaning(re, prog, env, b, i, j);
    case Set(negated, items) =>
      ThroughOne(prog, env, b, ElemCode(e)[0], i, j);
      FragOne(prog, b, ElemCode(e)[0]);
      WrittenItemsAscii(negated, items);
      if 0 <= i < |env.text| { MembersMean(env.icase, items, env.text[i]); }
    case _ =>
      ThroughOne(prog, env, b, ElemCode(e)[0], i, j);
      FragOne(prog, b, ElemCode(e)[0]);
  }

  lemma {:induction false} CopiesMeaning(e: Elem, n: nat, prog: seq<Inst>, env: Env, b: int, i: int, j: int)
    requires ElemWritten(e) && FragAt(prog, b, Copies(ElemCode(e), n))
    ensures Through(prog, env, b, b + |Copies(ElemCode(e), n)|, i, j) <==> Iterate(e, env, n, i, j)
    decreases e, 1, n
  {
    var x := ElemCode(e);
    if n == 0 {
      if Through(prog, env, b, b, i, j) {
        var k: nat :| Run(prog, env, b, b, b, i, b, j, k);
      }
      if i == j { assert Run(prog, env, b, b, b, i, b, j, 0); }
    } else {
      ElemCodeOk(e);
      CopiesOk(x, n - 1);
      ThroughCat(prog, env, b, x, Copies(x, n - 1), i, j);
      FragSplit(prog, b, x, Copies(x, n - 1));
      var mid, hi := b + |x|, b + |x + Copies(x, n - 1)|;
      assert b + |Copies(x, n)| == hi;
      forall m
        ensures Through(prog, env, b, mid, i, m) <==> MatchElem(e, env, i, m)
        ensures Through(prog, env, mid, hi, m, j) <==> Iterate(e, env, n - 1, m, j)
      {
        ElemMeaning(e, prog, env, b, i, m);
        CopiesMeaning(e, n - 1, prog, env, mid, m, j);
      }
      assert ThroughBoth(prog, env, b, mid, hi, i, j) <==> Iterate(e, env, n, i, j);
    }
  }

  lemma {:induction false} OptionalsMeaning(e: Elem, n: nat, prog: seq<Inst>, env: Env, b: int, i: int, j: int)
    requires ElemWritten(e) && FragAt(prog, b, Optionals(ElemCode(e), n))
    ensures Through(prog, env, b, b + |Optionals(ElemCode(e), n)|, i, j) <==> IterateWithin(e, env, 0, n, i, j)
    decreases e, 1, n
  {
    var x := ElemCode(e);
    if n == 0 {
      if Through(prog, env, b, b, i, j) {
        var k: nat :| Run(prog, env, b, b, b, i, b, j, k);
      }
      if i == j { assert Run(prog, env, b, b, b, i, b, j, 0) && Iterate(e, env, 0, i, j); }
    } else {
      var rest := Optionals(x, n - 1);
      ElemCodeOk(e);
      OptionalsOk(x, n - 1);
      OptionalsLength(x, n);
      CodeOkConcat(x, rest);
      assert Optionals(x, n) == [Branch(1, |x + rest| + 1)] + (x + rest);
      ThroughOption(prog, env, b, x + rest, i, j);
      FragSplit(prog, b, [Branch(1, |x + rest| + 1)], x + rest);
      ThroughCat(prog, env, b + 1, x, rest, i, j);
      FragSplit(prog, b + 1, x, rest);
      var mid, hi := b + 1 + |x|, b + 1 + |x + rest|;
      forall m
        ensures Through(prog, env, b + 1, mid, i, m) <==> Iterate(e, env, 1, i, m)
        ensures Through(prog, env, mid, hi, m, j) <==> IterateWithin(e, env, 0, n - 1, m, j)
      {
        ElemMeaning(e, prog, env, b + 1, i, m);
        IterateOnce(e, env, i, m);
        OptionalsMeaning(e, n - 1, prog, env, mid, m, j);
      }
      WithinAfter(e, env, 1, n - 1, i, j);
      NoneOrSome(e, env, n, i, j);
    }
  }

  lemma {:induction false} PlusSound(e: Elem, prog: seq<Inst>, env: Env, b: int, i: int, j: int, k: nat)
    requires ElemWritten(e) && FragAt(prog, b, Plus(ElemCode(e)))
    requires var hi := b + |Plus(ElemCode(e))|; Run(prog, env, b, hi, b, i, hi, j, k)
    ensures IterateFrom(e, env, 1, i, j)
    decreases e, 1, k
  {
    var x := ElemCode(e);
    var last, hi := b + |x|, b + |x| + 1;
    ElemCodeOk(e);
    FragSplit(prog, b, x, [Branch(-|x|, 1)]);
    ClosedFrag(prog, b, x);
    FragOne(prog, last, Branch(-|x|, 1));
    var q, k1 := RunSplit(prog, env, b, last, b, hi, b, i, hi, j, k);
    assert Through(prog, env, b, last, i, q);
    ElemMeaning(e, prog, env, b, i, q);
    IterateOnce(e, env, i, q);
    var m, q' :| Step(prog, env, last, q, m, q') && Run(prog, env, b, hi, m, q', hi, j, k - k1 - 1);
    if m == hi {
      RunAtEnd(prog, env, b, hi, q', j, k - k1 - 1);
    } else {
      PlusSound(e, prog, env, b, q, j, k - k1 - 1);
      FromAfter(e, env, 1, 1, i, j);
      var n: nat :| 2 <= n && Iterate(e, env, n, i, j);
    }
  }

  lemma {:induction false} PlusComplete(e: Elem, prog: seq<Inst>, env: Env, b: int, i: int, j: int, n: nat)
    requires ElemWritten(e) && FragAt(prog, b, Plus(ElemCode(e)))
    requires n > 0 && Iterate(e, env, n, i, j)
    ensures Through(prog, env, b, b + |Plus(ElemCode(e))|, i, j)
    decreases e, 1, n
  {
    var x := ElemCode(e);
    var last, hi := b + |x|, b + |x| + 1;
    FragSplit(prog, b, x, [Branch(-|x|, 1)]);
    FragOne(prog, last, Branch(-|x|, 1));
    var m :| MatchElem(e, env, i, m) && Iterate(e, env, n - 1, m, j);
    ElemMeaning(e, prog, env, b, i, m);
    var k1: nat :| Run(prog, env, b, last, b, i, last, m, k1);
    RunWiden(prog, env, b, last, b, i, last, m, k1, b, hi);
    var to, k2: nat;
    if n == 1 {
      to, k2 := hi, 0;
    } else {
      PlusComplete(e, prog, env, b, m, j, n - 1);
      to := b;
      k2 :| Run(prog, env, b, hi, b, m, hi, j, k2);
    }
    RunStep(prog, env, b, hi, last, m, to, m, hi, j, k2);
    RunConcat(prog, env, b, hi, b, i, last, m, hi, j, k1, k2 + 1);
  }

  lemma PlusMeaning(e: Elem, prog: seq<Inst>, env: Env, b: int, i: int, j: int)
    requires ElemWritten(e) && FragAt(prog, b, Plus(ElemCode(e)))
    ensures Through(prog, env, b, b + |Plus(ElemCode(e))|, i, j) <==> IterateFrom(e, env, 1, i, j)
    decreases e, 2, 0
  {
    var hi := b + |Plus(ElemCode(e))|;
    if Through(prog, env, b, hi, i, j) {
      var k: nat :| Run(prog, env, b, hi, b, i, hi, j, k);
      PlusSound(e, prog, env, b, i, j, k);
    }
    if IterateFrom(e, env, 1, i, j) {
      var n: nat :| 1 <= n && Iterate(e, env, n, i, j);
      PlusComplete(e, prog, env, b, i, j, n);
    }
  }

  lemma StarMeaning(e: Elem, prog: seq<Inst>, env: Env, b: int, i: int, j: int)
    requires ElemWritten(e) && FragAt(prog, b, Star(ElemCode(e)))
    ensures Through(prog, env, b, b + |Star(ElemCode(e))|, i, j) <==> IterateFrom(e, env, 0, i, j)
    decreases e, 3, 0
  {
    var x := ElemCode(e);
    ElemCodeOk(e);
    PlusOk(x);
    FragSplit(prog, b, [Branch(1, |x| + 2)], Plus(x));
    ThroughOption(prog, env, b, Plus(x), i, j);
    PlusMeaning(e, prog, env, b + 1, i, j);
    assert i == j <==> Iterate(e, env, 0, i, j);
  }

  lemma AtLeastMeaning(e: Elem, n: nat, prog: seq<Inst>, env: Env, b: int, i: int, j: int)
    requires ElemWritten(e) && n > 0
    requires FragAt(prog, b, Copies(ElemCode(e), n - 1) + Plus(ElemCode(e)))
    ensures Through(prog, env, b, b + |Copies(ElemCode(e), n - 1) + Plus(ElemCode(e))|, i, j) <==>
            IterateFrom(e, env, n, i, j)
    decreases e, 3, 0
  {
    var x := ElemCode(e);
    var c := Copies(x, n - 1);
    ElemCodeOk(e);
    CopiesOk(x, n - 1);
    PlusOk(x);
    FragSplit(prog, b, c, Plus(x));
    ThroughCat(prog, env, b, c, Plus(x), i, j);
    var mid, hi := b + |c|, b + |c + Plus(x)|;
    forall m
      ensures Through(prog, env, b, mid, i, m) <==> Iterate(e, env, n - 1, i, m)
      ensures Through(prog, env, mid, hi, m, j) <==> IterateFrom(e, env, 1, m, j)
    {
      CopiesMeaning(e, n - 1, prog, env, b, i, m);
      PlusMeaning(e, prog, env, mid, m, j);
    }
    assert ThroughBoth(prog, env, b, mid, hi, i, j) <==>
           exists m :: Iterate(e, env, n - 1, i, m) && IterateFrom(e, env, 1, m, j);
    FromAfter(e, env, n - 1, 1, i, j);
  }

  lemma BetweenMeaning(e: Elem, lo: nat, extra: nat, prog: seq<Inst>, env: Env, b: int, i: int, j: int)
    requires ElemWritten(e)
    requires FragAt(prog, b, Copies(ElemCode(e), lo) + Optionals(ElemCode(e), extra))
    ensures Through(prog, env, b, b + |Copies(ElemCode(e), lo) + Optionals(ElemCode(e), extra)|, i, j) <==>
            IterateWithin(e, env, lo, extra, i, j)
    decreases e, 3, 0
  {
    var x := ElemCode(e);
    var c, o := Copies(x, lo), Optionals(x, extra);
    ElemCodeOk(e);
    CopiesOk(x, lo);
    OptionalsOk(x, extra);
    FragSplit(prog, b, c, o);
    ThroughCat(prog, env, b, c, o, i, j);
    var mid, hi := b + |c|, b + |c + o|;
    forall m
      ensures Through(prog, env, b, mid, i, m) <==> Iterate(e, env, lo, i, m)
      ensures Through(prog, env, mid, hi, m, j) <==> IterateWithin(e, env, 0, extra, m, j)
    {
      CopiesMeaning(e, lo, prog, env, b, i, m);
      OptionalsMeaning(e, extra, prog, env, mid, m, j);
    }
    assert ThroughBoth(prog, env, b, mid, hi, i, j) <==>
           exists m :: Iterate(e, env, lo, i, m) && IterateWithin(e, env, 0, extra, m, j);
    WithinAfter(e, env, lo, extra, i, j);
  }

  /** The repetitions a quantifier stands for, one form for each way they are coded. */
  ghost predicate Repeated(e: Elem, q: Quant, env: Env, i: int, j: int)
    requires ElemWritten(e) && QuantWritten(q)
  {
    match q
    case Once => Iterate(e, env, 1, i, j)
    case ZeroOrMore => IterateFrom(e, env, 0, i, j)
    case OneOrMore => IterateFrom(e, env, 1, i, j)
    case ZeroOrOne => IterateWithin(e, env, 0, 1, i, j)
    case Exactly(n) => Iterate(e, env, Number(n), i, j)
    case AtLeast(n) => IterateFrom(e, env, Number(n), i, j)
    case AtMost(m) => IterateWithin(e, env, 0, Number(m), i, j)
    case Between(n, m) =>
      IterateWithin(e, env, Min(Number(n), Number(m)), Max(Number(n), Number(m)) - Min(Number(n), Number(m)), i, j)
  }

  lemma RepeatedMatches(b: Basic, env: Env, i: int, j: int)
    requires BasicWritten(b)
    ensures MatchBasic(b, env, i, j) <==> Repeated(b.elem, b.quant, env, i, j)
  {
    if MatchBasic(b, env, i, j) {
      var k: nat :| Allows(b.quant, k) && Iterate(b.elem, env, k, i, j);
      assert Repeated(b.elem, b.quant, env, i, j);
    }
    match b.quant
    case Once => assert Allows(b.quant, 1);
    case Exactly(n) => assert Allows(b.quant, Number(n));
    case _ =>
  }

  lemma {:induction false} CountedMeaning(e: Elem, q: Quant, prog: seq<Inst>, env: Env, at: int, i: int, j: int)
    requires ElemWritten(e) && QuantWritten(q) && FragAt(prog, at, QuantCode(ElemCode(e), q))
    requires q.Exactly? || q.AtLeast? || q.AtMost? || q.Between?
    ensures Through(prog, env, at, at + |QuantCode(ElemCode(e), q)|, i, j) <==> Repeated(e, q, env, i, j)
    decreases e, 8, 0
  {
    var x, code := ElemCode(e), QuantCode(ElemCode(e), q);
    match q
    case Exactly(n) =>
      assert code == Copies(x, Number(n));
      CopiesMeaning(e, Number(n), prog, env, at, i, j);
    case AtLeast(n) =>
      if Number(n) == 0 {
        assert code == Star(x);
        StarMeaning(e, prog, env, at, i, j);
      } else {
        assert code == Copies(x, Number(n) - 1) + Plus(x);
        AtLeastMeaning(e, Number(n), prog, env, at, i, j);
      }
    case AtMost(m) =>
      assert code == Optionals(x, Number(m));
      OptionalsMeaning(e, Number(m), prog, env, at, i, j);
    case Between(n, m) =>
      var lo, hi := Min(Number(n), Number(m)), Max(Number(n), Number(m));
      assert code == Copies(x, lo) + Optionals(x, hi - lo);
      BetweenMeaning(e, lo, hi - lo, prog, env, at, i, j);
  }

  lemma {:induction false} QuantMeaning(e: Elem, q: Quant, prog: seq<Inst>, env: Env, at: int, i: int, j: int)
    requires ElemWritten(e) && QuantWritten(q) && FragAt(prog, at, QuantCode(ElemCode(e), q))
    ensures Through(prog, env, at, at + |QuantCode(ElemCode(e), q)|, i, j) <==> Repeated(e, q, env, i, j)
    decreases e, 9, 0
  {
    match q
    case Once =>
      ElemMeaning(e, prog, env, at, i, j);
      IterateOnce(e, env, i, j);
    case ZeroOrMore => StarMeaning(e, prog, env, at, i, j);
    case OneOrMore => PlusMeaning(e, prog, env, at, i, j);
    case ZeroOrOne => OptionalsMeaning(e, 1, prog, env, at, i, j);
    case _ => CountedMeaning(e, q, prog, env, at, i, j);
  }

  lemma {:induction false} BasicMeaning(b: Basic, prog: seq<Inst>, env: Env, at: int, i: int, j: int)
    requires BasicWritten(b) && FragAt(prog, at, BasicCode(b))
    ensures Through(prog, env, at, at + |BasicCode(b)|, i, j) <==> MatchBasic(b, env, i, j)
    decreases b, 0, 0
  {
    QuantMeaning(b.elem, b.quant, prog, env, at, i, j);
    RepeatedMatches(b, env, i, j);
  }

  lemma {:induction false} CatMeaning(c: Cat, prog: seq<Inst>, env: Env, b: int, i: int, j: int)
    requires CatWritten(c) && FragAt(prog, b, CatCode(c))
    ensures Through(prog, env, b, b + |CatCode(c)|, i, j) <==> MatchCat(c, env, i, j)
    decreases c, 0, 0
  {
    match c
    case Empty =>
      if Through(prog, env, b, b, i, j) {
        var k: nat :| Run(prog, env, b, b, b, i, b, j, k);
      }
      if i == j { assert Run(prog, env, b, b, b, i, b, j, 0); }
    case Then(init, last) =>
      var l, r := CatCode(init), BasicCode(last);
      CatCodeOk(init);
      ElemCodeOk(last.elem);
      QuantOk(ElemCode(last.elem), last.quant);
      FragSplit(prog, b, l, r);
      ThroughCat(prog, env, b, l, r, i, j);
      var mid, hi := b + |l|, b + |l + r|;
      forall m
        ensures Through(prog, env, b, mid, i, m) <==> MatchCat(init, env, i, m)
        ensures Through(prog, env, mid, hi, m, j) <==> MatchBasic(last, env, m, j)
      {
        CatMeaning(init, prog, env, b, i, m);
        BasicMeaning(last, prog, env, mid, m, j);
      }
      assert ThroughBoth(prog, env, b, mid, hi, i, j) <==> MatchCat(c, env, i, j);
  }

  /** The code of an expression means what the expression means. */
  lemma {:induction false} ReMeaning(re: Re, prog: seq<Inst>, env: Env, b: int, i: int, j: int)
    requires ReWritten(re) && FragAt(prog, b, ReCode(re))
    ensures Through(prog, env, b, b + |ReCode(re)|, i, j) <==> MatchRe(re, env, i, j)
    decreases re, 0, 0
  {
    match re
    case Simple(c) => CatMeaning(c, prog, env, b, i, j);
    case Union(l, r) =>
      ReCodeOk(l);
      CatCodeOk(r);
      ThroughAlt(prog, env, b, ReCode(l), CatCode(r), i, j);
      ReMeaning(l, prog, env, b + 1, i, j);
      CatMeaning(r, prog, env, b + |ReCode(l)| + 2, i, j);
  }

  // ----- whole programs -----

  /** A program the compiler hands over: code with targets in range, then the only Match. */
  predicate ProgramOk(prog: seq<Inst>) {
    && |prog| > 0
    && prog[|prog| - 1] == Match
    && forall k :: 0 <= k < |prog| - 1 ==>
         match prog[k]
         case Branch(x, y) => 0 <= x < |prog| && k < y < |prog|
         case Jmp(x) => k < x < |prog|
         case Class(members) => |members| > 0
         case NClass(members) => |members| > 0
         case Match => false
         case _ => true
  }

  lemma LinkedOk(code: seq<Inst>)
    requires CodeOk(code)
    ensures ProgramOk(Link(code + [Match]))
    ensures FragAt(Link(code + [Match]), 0, code)
  {
    var prog := Link(code + [Match]);
    forall k | 0 <= k < |code| ensures prog[k] == Shift(code[k], k) && InstOk(code[k], k, |code|) {
      assert (code + [Match])[k] == code[k];
    }
  }

  /** The linked program of an expression accepts exactly the stretches the expression matches. */
  lemma ProgramMeaning(re: Re, env: Env, i: int, j: int)
    requires ReWritten(re)
    ensures Accepts(Link(ReCode(re) + [Match]), env, i, j) <==> MatchRe(re, env, i, j)
  {
    var code := ReCode(re);
    var prog := Link(code + [Match]);
    ReCodeOk(re);
    LinkedOk(code);
    ReMeaning(re, prog, env, 0, i, j);
    ClosedFrag(prog, 0, code);
    if Accepts(prog, env, i, j) {
      var k: nat :| Run(prog, env, 0, |prog|, 0, i, |code|, j, k);
      var q, k1 := RunSplit(prog, env, 0, |code|, 0, |prog|, 0, i, |code|, j, k);
      assert k == k1;
      assert Through(prog, env, 0, |code|, i, j);
    }
    if Through(prog, env, 0, |code|, i, j) {
      var k: nat :| Run(prog, env, 0, |code|, 0, i, |code|, j, k);
      RunWiden(prog, env, 0, |code|, 0, i, |code|, j, k, 0, |prog|);
      assert Reach(prog, env, i, |code|, j);
    }
  }
}
