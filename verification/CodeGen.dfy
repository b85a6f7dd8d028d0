/** The code of an expression, built part by part. Offsets are relative to the instruction
    that holds them, as they are until stage 2. The one-pass compiler of Stage1.dfy does not
    work like this; it is proved to give the same code. */
module CodeGen {
  import opened Regex
  import opened Program

  // ----- the members of a bracketed set -----

  /** The characters of a range; the ones above '~' never get here. */
  function CharsFrom(lo: char, hi: char): string
    decreases hi as int - lo as int
  {
    if lo > hi || hi >= '\U{7f}' then "" else if lo == hi then [lo] else [lo] + CharsFrom((lo as int + 1) as char, hi)
  }

  function ItemMembers(item: Item): string {
    match item
    case Single(ch) => [ch.c]
    case Range(from, to) => if from.c > to.c then CharsFrom(to.c, from.c) else CharsFrom(from.c, to.c)
  }

  predicate AsciiItems(items: seq<Item>) {
    forall k :: 0 <= k < |items| ==>
      (items[k].Range? ==> items[k].from.c < '\U{7f}' && items[k].to.c < '\U{7f}')
  }

  function Members(items: seq<Item>): string {
    if items == [] then "" else ItemMembers(items[0]) + Members(items[1..])
  }

  // ----- quantifiers -----

  function Copies(x: seq<Inst>, n: nat): seq<Inst> {
    if n == 0 then [] else x + Copies(x, n - 1)
  }

  /** n optional copies; each branch may give up on all that are left. */
  function Optionals(x: seq<Inst>, n: nat): seq<Inst> {
    if n == 0 then [] else [Branch(1, (|x| + 1) * n)] + x + Optionals(x, n - 1)
  }

  function Plus(x: seq<Inst>): seq<Inst> {
    x + [Branch(-|x|, 1)]
  }

  function Star(x: seq<Inst>): seq<Inst> {
    [Branch(1, |x| + 2)] + Plus(x)
  }

  function QuantCode(x: seq<Inst>, q: Quant): seq<Inst>
    requires QuantWritten(q)
  {
    match q
    case Once => x
    case ZeroOrMore => Star(x)
    case OneOrMore => Plus(x)
    case ZeroOrOne => Optionals(x, 1)
    case Exactly(n) => Copies(x, Number(n))
    case AtLeast(n) => if Number(n) == 0 then Star(x) else Copies(x, Number(n) - 1) + Plus(x)
    case AtMost(m) => Optionals(x, Number(m))
    case Between(n, m) =>
      var lo, hi := Min(Number(n), Number(m)), Max(Number(n), Number(m));
      Copies(x, lo) + Optionals(x, hi - lo)
  }

  // ----- trees -----

  function AltCode(l: seq<Inst>, r: seq<Inst>): seq<Inst> {
    [Branch(1, |l| + 2)] + l + [Jmp(|r| + 1)] + r
  }

  function ElemCode(e: Elem): seq<Inst>
    requires ElemWritten(e)
  {
    match e
    case Group(re) => ReCode(re)
    case AnyChar => [Any]
    case LineStart => [StartOfLine]
    case LineEnd => [EndOfLine]
    case Lit(ch) => [Char(ch.c)]
    case Set(negated, items) =>
      [if negated then NClass(Members(items)) else Class(Members(items))]
  }

  function BasicCode(b: Basic): seq<Inst>
    requires BasicWritten(b)
  {
    QuantCode(ElemCode(b.elem), b.quant)
  }

  function CatCode(c: Cat): seq<Inst>
    requires CatWritten(c)
  {
    match c
    case Empty => []
    case Then(init, last) => CatCode(init) + BasicCode(last)
  }

  function ReCode(re: Re): seq<Inst>
    requires ReWritten(re)
  {
    match re
    case Simple(c) => CatCode(c)
    case Union(l, r) => AltCode(ReCode(l), CatCode(r))
  }

  lemma WrittenItemsAscii(negated: bool, items: seq<Item>)
    requires ItemsWritten(negated, items)
    ensures AsciiItems(items)
  {
    forall k | 0 <= k < |items| && items[k].Range?
      ensures items[k].from.c < '\U{7f}' && items[k].to.c < '\U{7f}'
    {
      assert ItemWritten(negated, items[k]);
    }
  }

  // ----- linking -----

  /** The instruction with its offsets made absolute for position `at`. */
  function Shift(inst: Inst, at: int): Inst {
    match inst
    case Branch(x, y) => Branch(x + at, y + at)
    case Jmp(x) => Jmp(x + at)
    case _ => inst
  }

  function Link(code: seq<Inst>): (prog: seq<Inst>)
    ensures |prog| == |code|
    ensures forall k :: 0 <= k < |code| ==> prog[k] == Shift(code[k], k)
  {
    seq(|code|, k requires 0 <= k < |code| => Shift(code[k], k))
  }

  /** code stands, linked, at position b of prog. */
  ghost predicate FragAt(prog: seq<Inst>, b: int, code: seq<Inst>) {
    && 0 <= b && b + |code| <= |prog|
    && forall k :: 0 <= k < |code| ==> prog[b + k] == Shift(code[k], b + k)
  }

  lemma FragSplit(prog: seq<Inst>, b: int, l: seq<Inst>, r: seq<Inst>)
    requires FragAt(prog, b, l + r)
    ensures FragAt(prog, b, l) && FragAt(prog, b + |l|, r)
  {
    forall k | 0 <= k < |l| ensures prog[b + k] == Shift(l[k], b + k) {
      assert (l + r)[k] == l[k];
    }
    forall k | 0 <= k < |r| ensures prog[b + |l| + k] == Shift(r[k], b + |l| + k) {
      assert (l + r)[|l| + k] == r[k];
    }
  }

  lemma FragOne(prog: seq<Inst>, b: int, inst: Inst)
    requires FragAt(prog, b, [inst])
    ensures prog[b] == Shift(inst, b)
  {
    assert prog[b + 0] == Shift([inst][0], b + 0);
  }

  // ----- well-formed code -----

  /** What holds of instruction number k of a fragment of n: targets stay in the fragment or
      just past it, and a jump or the second way of a branch goes forward. */
  predicate InstOk(inst: Inst, k: int, n: int) {
    match inst
    case Branch(x, y) => 0 <= k + x <= n && 1 <= y && k + y <= n
    case Jmp(x) => 1 <= x && k + x <= n
    case Class(members) => |members| > 0
    case NClass(members) => |members| > 0
    case Match => false
    case _ => true
  }

  predicate CodeOk(code: seq<Inst>) {
    forall k :: 0 <= k < |code| ==> InstOk(code[k], k, |code|)
  }

  lemma CodeOkConcat(l: seq<Inst>, r: seq<Inst>)
    requires CodeOk(l) && CodeOk(r)
    ensures CodeOk(l + r)
  {
    forall k | 0 <= k < |l + r| ensures InstOk((l + r)[k], k, |l + r|) {
      if k < |l| { assert InstOk(l[k], k, |l|); } else { assert InstOk(r[k - |l|], k - |l|, |r|); }
    }
  }

  lemma {:induction false} CopiesOk(x: seq<Inst>, n: nat)
    requires CodeOk(x)
    ensures CodeOk(Copies(x, n))
  {
    if n != 0 {
      CopiesOk(x, n - 1);
      CodeOkConcat(x, Copies(x, n - 1));
    }
  }

  lemma {:induction false} OptionalsLength(x: seq<Inst>, n: nat)
    ensures |Optionals(x, n)| == (|x| + 1) * n
  {
    if n != 0 {
      OptionalsLength(x, n - 1);
      assert (|x| + 1) * n == (|x| + 1) * (n - 1) + |x| + 1;
    } else {
      assert (|x| + 1) * 0 == 0;
    }
  }

  lemma {:induction false} OptionalsOk(x: seq<Inst>, n: nat)
    requires CodeOk(x)
    ensures CodeOk(Optionals(x, n))
  {
    if n != 0 {
      OptionalsOk(x, n - 1);
      OptionalsLength(x, n);
      CodeOkConcat(x, Optionals(x, n - 1));
      var rest := x + Optionals(x, n - 1);
      var code := [Branch(1, (|x| + 1) * n)] + rest;
      assert code == Optionals(x, n);
      forall k | 0 <= k < |code| ensures InstOk(code[k], k, |code|) {
        if k > 0 { assert InstOk(rest[k - 1], k - 1, |rest|); }
      }
    }
  }

  lemma PlusOk(x: seq<Inst>)
    requires CodeOk(x)
    ensures CodeOk(Plus(x))
  {
    forall k | 0 <= k < |Plus(x)| ensures InstOk(Plus(x)[k], k, |Plus(x)|) {
      if k < |x| { assert InstOk(x[k], k, |x|); }
    }
  }

  lemma StarOk(x: seq<Inst>)
    requires CodeOk(x)
    ensures CodeOk(Star(x))
  {
    PlusOk(x);
    forall k | 0 <= k < |Star(x)| ensures InstOk(Star(x)[k], k, |Star(x)|) {
      if k > 0 { assert InstOk(Plus(x)[k - 1], k - 1, |Plus(x)|); }
    }
  }

  lemma AltOk(l: seq<Inst>, r: seq<Inst>)
    requires CodeOk(l) && CodeOk(r)
    ensures CodeOk(AltCode(l, r))
  {
    var code := AltCode(l, r);
    forall k | 0 <= k < |code| ensures InstOk(code[k], k, |code|) {
      if 1 <= k <= |l| {
        assert code[k] == l[k - 1] && InstOk(l[k - 1], k - 1, |l|);
      } else if k > |l| + 1 {
        assert code[k] == r[k - |l| - 2] && InstOk(r[k - |l| - 2], k - |l| - 2, |r|);
      }
    }
  }

  lemma QuantOk(x: seq<Inst>, q: Quant)
    requires QuantWritten(q) && CodeOk(x)
    ensures CodeOk(QuantCode(x, q))
  {
    match q
    case Once =>
    case ZeroOrMore => StarOk(x);
    case OneOrMore => PlusOk(x);
    case ZeroOrOne => OptionalsOk(x, 1);
    case Exactly(n) => CopiesOk(x, Number(n));
    case AtLeast(n) =>
      if Number(n) == 0 {
        StarOk(x);
      } else {
        CopiesOk(x, Number(n) - 1);
        PlusOk(x);
        CodeOkConcat(Copies(x, Number(n) - 1), Plus(x));
      }
    case AtMost(m) => OptionalsOk(x, Number(m));
    case Between(n, m) =>
      var lo, hi := Min(Number(n), Number(m)), Max(Number(n), Number(m));
      CopiesOk(x, lo);
      OptionalsOk(x, hi - lo);
      CodeOkConcat(Copies(x, lo), Optionals(x, hi - lo));
  }

  lemma {:induction false} ItemMembersNonempty(item: Item)
    requires item.Range? ==> item.from.c < '\U{7f}' && item.to.c < '\U{7f}'
    ensures |ItemMembers(item)| > 0
  {
  }

  lemma {:induction false} ElemCodeOk(e: Elem)
    requires ElemWritten(e)
    ensures CodeOk(ElemCode(e))
    decreases e
  {
    match e
    case Group(re) => ReCodeOk(re);
    case Set(negated, items) =>
      assert ItemWritten(negated, items[0]);
      ItemMembersNonempty(items[0]);
    case _ =>
  }

  lemma {:induction false} CatCodeOk(c: Cat)
    requires CatWritten(c)
    ensures CodeOk(CatCode(c))
    decreases c
  {
    match c
    case Empty =>
    case Then(init, last) =>
      CatCodeOk(init);
      ElemCodeOk(last.elem);
      QuantOk(ElemCode(last.elem), last.quant);
      CodeOkConcat(CatCode(init), BasicCode(last));
  }

  /** Every target of an expression's code lies in the code or just past it, jumps go strictly
      forward, classes have members, and there is no Match inside. */
  lemma {:induction false} ReCodeOk(re: Re)
    requires ReWritten(re)
    ensures CodeOk(ReCode(re))
    decreases re
  {
    match re
    case Simple(c) => CatCodeOk(c);
    case Union(l, r) =>
      ReCodeOk(l);
      CatCodeOk(r);
      AltOk(ReCode(l), CatCode(r));
  }
}
