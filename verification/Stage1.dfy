/** librxvm/stage1.c and librxvm/vmcode.c: the one-pass compiler, updating its state in place.
    Each method does to the state what Context.dfy says its token does. */
module Stage1 {
  import opened Regex
  import opened Program
  import opened CodeGen
  import opened Lexer
  import opened Context

  lemma {:induction false} CopiesSnoc(x: seq<Inst>, n: nat)
    ensures Copies(x, n) + x == Copies(x, n + 1)
  {
    if n == 0 {
      assert [] + x == x + [];
    } else {
      CopiesSnoc(x, n - 1);
      assert x + Copies(x, n - 1) + x == x + (Copies(x, n - 1) + x);
    }
  }

  lemma OptionalsStep(x: seq<Inst>, left: nat, done: seq<Inst>, whole: seq<Inst>)
    requires left > 0 && done + Optionals(x, left) == whole
    ensures done + ([Branch(1, (|x| + 1) * left)] + x) + Optionals(x, left - 1) == whole
  {
  }

  lemma EmitBuf(c: Ctx, code: seq<Inst>)
    requires Valid(c)
    ensures Buf(Emit(c, code)) == Buf(c)
  {
  }

  /** The method has done what the function asks for. */
  predicate Does(r: Result<()>, now: Ctx, want: Result<Ctx>) {
    match want
    case Err(e) => r == Err(e)
    case Ok(c) => r == Ok(()) && now == c
  }

  /** The same for a method that emits code. */
  predicate Emits(r: Result<()>, now: Ctx, was: Ctx, want: Result<seq<Inst>>)
    requires Valid(was)
  {
    match want
    case Err(e) => r == Err(e)
    case Ok(code) => r == Ok(()) && now == Emit(was, code)
  }

  /** parse_rep: the digits and the comma between the braces. */
  method ParseRep(s: string) returns (n: int, m: int)
    requires RepText(s)
    ensures (n, m) == RepCounts(s)
  {
    n, m := NO_FIELD, NO_FIELD;
    var second := false;
    ghost var comma := CommaAt(s);
    var k := 0;
    while k < |s|
      invariant 0 <= k <= |s|
      invariant second <==> k > comma
      invariant !second ==> n == Field(s[..k], NO_FIELD) && m == NO_FIELD
      invariant second ==> n == Field(s[..comma], NO_FIELD) && m == Field(s[comma + 1..k], NO_FIELD)
    {
      if s[k] == ',' {
        assert k == comma;
        second := true;
        assert s[comma + 1..k + 1] == "";
      } else if !second {
        assert s[..k + 1][..k] == s[..k] && s[..k + 1][k] == s[k];
        assert Number(s[..k + 1]) == 10 * Number(s[..k]) + (s[k] as int - '0' as int);
        n := (if n == NO_FIELD then 0 else n) * 10 + (s[k] as int - '0' as int);
      } else {
        ghost var d := s[comma + 1..k + 1];
        assert d[..|d| - 1] == s[comma + 1..k] && d[|d| - 1] == s[k];
        assert Number(d) == 10 * Number(s[comma + 1..k]) + (s[k] as int - '0' as int);
        m := (if m == NO_FIELD then 0 else m) * 10 + (s[k] as int - '0' as int);
      }
      k := k + 1;
    }
    assert s[..|s|] == s && s[comma..comma] == "";
    if second {
      if n == NO_FIELD { n := FIELD_EMPTY; }
      if m == NO_FIELD { m := FIELD_EMPTY; }
    }
  }

  class Compiler {
    var prog: Stack
    var parens: seq<Stack>
    var target: nat
    var buf: nat
    var operand: (nat, nat)
    var afterGroup: bool
    var chained: bool
    var inClass: bool
    var strb: string
    var negated: bool

    /** The fields as one value. */
    ghost function Now(): Ctx
      reads this
    {
      Ctx(prog, parens, target, buf, operand, afterGroup, chained, inClass, strb, negated)
    }

    /** stage1_init. */
    constructor ()
      ensures Now() == INITIAL
    {
      prog, parens, target, buf, operand := EMPTY_STACK, [EMPTY_STACK], 0, 0, (0, 0);
      afterGroup, chained, inClass, strb, negated := false, false, false, "", false;
    }

    // ----- vmcode.c -----

    /** stack_add_inst_head on the target. */
    method AddInst(inst: Inst)
      requires Valid(Now())
      modifies `prog, `parens
      ensures Valid(Now()) && Now() == Emit(old(Now()), [inst])
    {
      if target == 0 {
        prog := prog.(code := prog.code + [inst]);
      } else {
        parens := parens[target := parens[target].(code := parens[target].code + [inst])];
      }
    }

    /** stack_cat_from_item and stack_dupe_from_item: the instructions of the buffer from i on go
        to the target, one by one. The last use of an operand relinks it, the others copy it. */
    method CatFromItem(i: nat)
      requires Valid(Now()) && i <= |Buf(Now())|
      modifies `prog, `parens
      ensures Valid(Now()) && Now() == Emit(old(Now()), Buf(old(Now()))[i..])
      ensures Buf(Now()) == Buf(old(Now()))
    {
      ghost var was, b := Now(), Buf(Now());
      var j := i;
      EmitNone(was);
      assert b[i..j] == [];
      while j < |parens[buf].code|
        invariant Valid(Now()) && i <= j <= |b| && Buf(Now()) == b
        invariant Now() == Emit(was, b[i..j])
      {
        EmitTwice(was, b[i..j], [b[j]]);
        EmitBuf(Now(), [b[j]]);
        assert b[i..j] + [b[j]] == b[i..j + 1];
        AddInst(parens[buf].code[j]);
        j := j + 1;
      }
      assert b[i..j] == b[i..];
    }

    method CodeOne(size: nat, i: nat)
      requires Valid(Now()) && i <= |Buf(Now())| && size == |Buf(Now())| - i
      modifies `prog, `parens
      ensures Valid(Now()) && Now() == Emit(old(Now()), Plus(Buf(old(Now()))[i..]))
    {
      CatFromItem(i);
      AddInst(Branch(-(size as int), 1));
      EmitTwice(old(Now()), Buf(old(Now()))[i..], [Branch(-(size as int), 1)]);
    }

    method CodeZero(size: nat, i: nat)
      requires Valid(Now()) && i <= |Buf(Now())| && size == |Buf(Now())| - i
      modifies `prog, `parens
      ensures Valid(Now()) && Now() == Emit(old(Now()), Star(Buf(old(Now()))[i..]))
    {
      ghost var was, x := Now(), Buf(Now())[i..];
      BranchAndCopy(size + 2, i);
      AddInst(Branch(-(size as int), 1));
      EmitTwice(was, [Branch(1, size + 2)] + x, [Branch(-(size as int), 1)]);
      assert [Branch(1, size + 2)] + x + [Branch(-(size as int), 1)] == Star(x);
    }

    method CodeOneZero(size: nat, i: nat)
      requires Valid(Now()) && i <= |Buf(Now())| && size == |Buf(Now())| - i
      modifies `prog, `parens
      ensures Valid(Now()) && Now() == Emit(old(Now()), Optionals(Buf(old(Now()))[i..], 1))
    {
      ghost var x := Buf(Now())[i..];
      BranchAndCopy(size + 1, i);
      assert [Branch(1, size + 1)] + x + [] == [Branch(1, size + 1)] + x == Optionals(x, 1);
    }

    /** The loops that copy the operand n times. */
    method Repeat(n: nat, i: nat)
      requires Valid(Now()) && i <= |Buf(Now())|
      modifies `prog, `parens
      ensures Valid(Now()) && Now() == Emit(old(Now()), Copies(Buf(old(Now()))[i..], n))
      ensures Buf(Now()) == Buf(old(Now()))
    {
      ghost var was, x := Now(), Buf(Now())[i..];
      EmitNone(was);
      var j := 0;
      while j < n
        invariant Valid(Now()) && 0 <= j <= n && Buf(Now()) == Buf(was)
        invariant Now() == Emit(was, Copies(x, j))
      {
        CatFromItem(i);
        EmitTwice(was, Copies(x, j), x);
        CopiesSnoc(x, j);
        j := j + 1;
      }
    }

    method BranchAndCopy(end: int, i: nat)
      requires Valid(Now()) && i <= |Buf(Now())|
      modifies `prog, `parens
      ensures Valid(Now()) && Now() == Emit(old(Now()), [Branch(1, end)] + Buf(old(Now()))[i..])
      ensures Buf(Now()) == Buf(old(Now()))
    {
      ghost var was, x := Now(), Buf(Now())[i..];
      AddInst(Branch(1, end));
      EmitBuf(was, [Branch(1, end)]);
      CatFromItem(i);
      EmitTwice(was, [Branch(1, end)], x);
    }

    /** The loops that copy the operand n times, each copy behind a branch that may skip it and
        all that follow. */
    method RepeatOptional(n: nat, size: nat, i: nat)
      requires Valid(Now()) && i <= |Buf(Now())| && size == |Buf(Now())| - i
      modifies `prog, `parens
      ensures Valid(Now()) && Now() == Emit(old(Now()), Optionals(Buf(old(Now()))[i..], n))
    {
      ghost var was, x := Now(), Buf(Now())[i..];
      ghost var done: seq<Inst> := [];
      EmitNone(was);
      assert [] + Optionals(x, n) == Optionals(x, n);
      var j := 0;
      while j < n
        invariant Valid(Now()) && 0 <= j <= n && Buf(Now()) == Buf(was)
        invariant Now() == Emit(was, done)
        invariant done + Optionals(x, n - j) == Optionals(x, n)
      {
        var end := (size + 1) * (n - j);
        BranchAndCopy(end, i);
        EmitTwice(was, done, [Branch(1, end)] + x);
        OptionalsStep(x, n - j, done, Optionals(x, n));
        done := done + ([Branch(1, end)] + x);
        j := j + 1;
      }
      assert done + [] == done;
    }

    method CodeRepN(n: nat, i: nat) returns (r: Result<()>)
      requires Valid(Now()) && i <= |Buf(Now())|
      modifies `prog, `parens
      ensures Valid(Now())
      ensures Emits(r, Now(), old(Now()), if n == 0 then Err(BadOp) else Ok(Copies(Buf(old(Now()))[i..], n)))
    {
      if n == 0 {
        return Err(BadOp);
      }
      Repeat(n, i);
      r := Ok(());
    }

    method CodeRepMore(n: nat, size: nat, i: nat)
      requires Valid(Now()) && i <= |Buf(Now())| && size == |Buf(Now())| - i && n > 0
      modifies `prog, `parens
      ensures Valid(Now())
      ensures Now() == Emit(old(Now()), Copies(Buf(old(Now()))[i..], n - 1) + Plus(Buf(old(Now()))[i..]))
    {
      ghost var was, x := Now(), Buf(Now())[i..];
      Repeat(n - 1, i);
      CodeOne(size, i);
      EmitTwice(was, Copies(x, n - 1), Plus(x));
    }

    method CodeRepLess(m: nat, size: nat, i: nat) returns (r: Result<()>)
      requires Valid(Now()) && i <= |Buf(Now())| && size == |Buf(Now())| - i
      modifies `prog, `parens
      ensures Valid(Now())
      ensures Emits(r, Now(), old(Now()), if m == 0 then Err(BadOp) else Ok(Optionals(Buf(old(Now()))[i..], m)))
    {
      if m == 0 {
        return Err(BadOp);
      } else if m == 1 {
        CodeOneZero(size, i);
      } else {
        RepeatOptional(m, size, i);
      }
      r := Ok(());
    }

    method CodeRepRange(n: nat, m: nat, size: nat, i: nat) returns (r: Result<()>)
      requires Valid(Now()) && i <= |Buf(Now())| && size == |Buf(Now())| - i
      modifies `prog, `parens
      ensures Valid(Now())
      ensures Emits(r, Now(), old(Now()), RepCode(Buf(old(Now()))[i..], (n, m)))
    {
      if n == m {
        r := CodeRepN(n, i);
      } else if (n == 0 && m == 1) || (n == 1 && m == 0) {
        CodeOneZero(size, i);
        r := Ok(());
      } else {
        ghost var was, x := Now(), Buf(Now())[i..];
        var lo, hi := n, m;
        if n > m {
          lo, hi := m, n;
        }
        Repeat(lo, i);
        RepeatOptional(hi - lo, size, i);
        EmitTwice(was, Copies(x, lo), Optionals(x, hi - lo));
        r := Ok(());
      }
    }

    /** process_op_rep. */
    method ProcessOpRep(n: int, m: int, size: nat, i: nat) returns (r: Result<()>)
      requires Valid(Now()) && i <= |Buf(Now())| && size == |Buf(Now())| - i
      modifies `prog, `parens
      ensures Valid(Now())
      ensures Emits(r, Now(), old(Now()), RepCode(Buf(old(Now()))[i..], (n, m)))
    {
      r := Ok(());
      if n >= 0 && m >= 0 {
        r := CodeRepRange(n, m, size, i);
      } else if n > 0 && m == FIELD_EMPTY {
        CodeRepMore(n, size, i);
      } else if n == FIELD_EMPTY && m >= 0 {
        r := CodeRepLess(m, size, i);
      } else if n >= 0 && m == NO_FIELD {
        r := CodeRepN(n, i);
      } else if n == 0 && m == FIELD_EMPTY {
        CodeZero(size, i);
      } else {
        EmitNone(Now());
      }
    }

    /** The target list becomes s. */
    method PutTarget(s: Stack)
      requires Valid(Now()) && StackOk(s)
      modifies `prog, `parens
      ensures Valid(Now()) && Now() == SetTarget(old(Now()), s)
    {
      if target == 0 {
        prog := s;
      } else {
        parens := parens[target := s];
      }
    }

    /** attach_dangling_alt. */
    method AttachDanglingAlt()
      requires Valid(Now())
      modifies `prog, `parens
      ensures Valid(Now()) && Now() == SetTarget(old(Now()), Attach(Target(old(Now()))))
    {
      var s := if target == 0 then prog else parens[target];
      if s.dangling == -1 {
        assert parens[target := parens[target]] == parens;
      } else {
        var x := |s.code| - s.dsize + 1;
        PutTarget(s.(code := s.code[s.dangling := Jmp(x)], dangling := -1));
      }
    }

    /** The branch in front and the waiting jump behind. */
    method AddBar()
      requires Valid(Now())
      modifies `prog, `parens
      ensures Valid(Now()) && Now() == SetTarget(old(Now()), Alternate(Target(old(Now()))))
    {
      ghost var was := Now();
      AttachDanglingAlt();
      var s := if target == 0 then prog else parens[target];
      var code := [Branch(1, |s.code| + 2)] + s.code + [Jmp(0)];
      PutTarget(Stack(code, |code| - 1, |code|));
      SetSet(was, Attach(Target(was)), Alternate(Target(was)));
    }

    /** A second bar in the same list makes a chain of jumps. */
    method NoteChain()
      requires Valid(Now())
      modifies `chained
      ensures Now() == old(Now()).(chained := old(chained) || Target(old(Now())).dsize != 0)
    {
      var s := if target == 0 then prog else parens[target];
      if s.dsize != 0 && !chained {
        chained := true;
      }
    }

    /** code_alt. */
    method CodeAlt(i: nat)
      requires Valid(Now()) && i <= |Buf(Now())|
      modifies `prog, `parens, `chained
      ensures Valid(Now())
      ensures var c1 := Emit(old(Now()), Buf(old(Now()))[i..]);
        Now() == SetTarget(c1, Alternate(Target(c1))).(chained := old(chained) || Target(old(Now())).dsize != 0)
    {
      ghost var was := Now();
      CatFromItem(i);
      ghost var c1 := Now();
      NoteChain();
      AddBar();
      AltIs(was, c1, Now());
    }

    // ----- stage1.c -----

    /** The literals in front of the operand join the code. */
    method EmitBefore(k: nat)
      requires Valid(Now()) && k <= |Buf(Now())|
      modifies `prog, `parens
      ensures Valid(Now()) && Now() == Emit(old(Now()), Buf(old(Now()))[..k]) && Buf(Now()) == Buf(old(Now()))
    {
      ghost var was, b := Now(), Buf(Now());
      EmitNone(was);
      assert b[..0] == [];
      var j := 0;
      while j < k
        invariant Valid(Now()) && 0 <= j <= k && Buf(Now()) == b
        invariant Now() == Emit(was, b[..j])
      {
        EmitTwice(was, b[..j], [b[j]]);
        EmitBuf(Now(), [b[j]]);
        assert b[..j] + [b[j]] == b[..j + 1];
        AddInst(parens[buf].code[j]);
        j := j + 1;
      }
    }

    /** The instructions for the operator and its operand. */
    method EmitOp(tok: Token, i: nat) returns (r: Result<()>)
      requires Valid(Now()) && IsOp(tok) && TokenOk(tok) && tok != Alt && i <= |Buf(Now())|
      modifies `prog, `parens
      ensures Valid(Now()) && Emits(r, Now(), old(Now()), OpCode(tok, Buf(old(Now()))[i..]))
    {
      var size := |parens[buf].code| - i;
      r := Ok(());
      match tok {
        case One => CodeOne(size, i);
        case Zero => CodeZero(size, i);
        case OneZero => CodeOneZero(size, i);
        case Rep(counts) =>
          var n, m := ParseRep(counts);
          r := ProcessOpRep(n, m, size, i);
      }
    }

    /** The end of process_op: the buffer is used up. */
    method UseUp()
      requires Valid(Now())
      modifies `parens, `buf, `afterGroup
      ensures Valid(Now()) && Now() == Consume(old(Now()))
    {
      parens := parens[buf := parens[buf].(code := [])];
      if afterGroup {
        parens := parens[..|parens| - 1];
        afterGroup := false;
      }
      buf := 0;
    }

    /** The middle of process_op for the alternation bar. */
    method OperateAlt(k: nat)
      requires Valid(Now()) && k <= |Buf(Now())|
      requires if Buf(Now()) == [] then k == 0 else operand == (buf, k) && k < |Buf(Now())|
      modifies `prog, `parens, `chained
      ensures Valid(Now()) && Op(old(Now()), Alt) == Ok(Consume(Now()))
    {
      ghost var was, b := Now(), Buf(Now());
      EmitBefore(k);
      CodeAlt(k);
      EmitTwice(was, b[..k], b[k..]);
      OpIs(was, Alt, k, Now());
    }

    /** The middle of process_op for the other operators. */
    method Operate(tok: Token, k: nat) returns (r: Result<()>)
      requires Valid(Now()) && IsOp(tok) && TokenOk(tok) && tok != Alt
      requires k < |Buf(Now())| && operand == (buf, k)
      modifies `prog, `parens
      ensures Valid(Now()) && r == (match Op(old(Now()), tok) case Ok(_) => Ok(()) case Err(e) => Err(e))
      ensures r.Ok? ==> Op(old(Now()), tok) == Ok(Consume(Now()))
    {
      ghost var was, b := Now(), Buf(Now());
      EmitBefore(k);
      r := EmitOp(tok, k);
      if r.Ok? {
        EmitTwice(was, b[..k], OpCode(tok, b[k..]).value);
        OpIs(was, tok, k, Now());
      }
    }

    /** process_op. */
    method ProcessOp(tok: Token) returns (r: Result<()>)
      requires Valid(Now()) && IsOp(tok) && TokenOk(tok)
      modifies this
      ensures Does(r, Now(), Op(old(Now()), tok))
    {
      var empty := parens[buf].code == [];
      if empty && tok != Alt {
        return Err(BadOp);
      }
      if !empty && (operand.0 != buf || operand.1 >= |parens[buf].code|) {
        return Err(Undefined);
      }
      r := Ok(());
      if tok == Alt {
        OperateAlt(if empty then 0 else operand.1);
      } else {
        r := Operate(tok, operand.1);
      }
      if r.Ok? {
        UseUp();
      }
    }

    /** stack_add_inst_head on the list at k, which becomes the place of the operand. */
    method AddOperand(k: nat, inst: Inst)
      requires Valid(Now()) && k < |parens| && parens[k].dangling == -1
      modifies `parens, `operand
      ensures Valid(Now()) && Now() == AddTo(old(Now()), k, inst)
    {
      operand := (k, |parens[k].code|);
      parens := parens[k := parens[k].(code := parens[k].code + [inst])];
    }

    /** stack_cat of the shared literal buffer, and its reset. */
    method EmitLiterals()
      requires Valid(Now())
      modifies `prog, `parens
      ensures Valid(Now()) && Now() == FlushLiterals(old(Now()))
    {
      var s := if target == 0 then prog else parens[target];
      PutTarget(s.(code := s.code + parens[0].code));
      parens := parens[0 := parens[0].(code := [])];
    }

    /** The group just closed is not an operand. */
    method FlushGroup()
      requires Valid(Now())
      modifies `prog, `parens, `buf, `afterGroup
      ensures Valid(Now()) && Now() == Flush(old(Now()))
    {
      if afterGroup && parens[buf].code != [] {
        var s := if target == 0 then prog else parens[target];
        PutTarget(s.(code := s.code + parens[buf].code));
        parens := parens[..|parens| - 1];
        buf := 0;
        afterGroup := false;
      }
    }

    method Open()
      requires Valid(Now())
      modifies `prog, `parens, `target, `afterGroup
      ensures Valid(Now()) && Now() == OpenGroup(old(Now()))
    {
      EmitLiterals();
      parens := parens + [EMPTY_STACK];
      target := |parens| - 1;
      afterGroup := false;
    }

    method FlushAndAttach()
      requires Valid(Now())
      modifies `prog, `parens
      ensures Valid(Now())
      ensures var c1 := FlushLiterals(old(Now())); Now() == SetTarget(c1, Attach(Target(c1)))
    {
      EmitLiterals();
      AttachDanglingAlt();
    }

    method Close()
      requires Valid(Now()) && |parens| > 1
      modifies `prog, `parens, `target, `buf, `operand, `afterGroup
      ensures Valid(Now()) && Now() == CloseGroup(old(Now()))
    {
      ghost var was := Now();
      FlushAndAttach();
      ghost var attached := Now();
      var top := |parens| - 1;
      operand, buf, target, afterGroup := (top, 0), top, top - 1, true;
      CloseIs(was, attached, Now());
    }

    /** The tokens that stand for one instruction. */
    method Single(tok: Token, inst: Inst)
      requires Valid(Now())
      requires match tok
               case Literal(ch) => inst == Char(ch)
               case AnyTok => inst == Any
               case Sol => inst == StartOfLine
               case Eol => inst == EndOfLine
               case _ => false
      modifies this
      ensures Main(old(Now()), tok) == Ok(Now())
    {
      FlushGroup();
      AddOperand(buf, inst);
    }

    /** Parentheses and brackets. */
    method Delimiter(tok: Token) returns (r: Result<()>)
      requires Valid(Now()) && !IsOp(tok) && !tok.Literal? && tok != AnyTok && tok != Sol && tok != Eol
      modifies this
      ensures Does(r, Now(), Main(old(Now()), tok))
    {
      FlushGroup();
      r := Ok(());
      if tok == CharcOpen {
        inClass, strb := true, "";
      } else if tok == LParen {
        Open();
      } else if tok == RParen && |parens| == 1 {
        r := Err(BadParen);
      } else if tok == RParen {
        Close();
      } else if tok == CharcClose {
        r := Err(BadClass);
      }
    }

    /** stage1_main_state. */
    method MainState(tok: Token) returns (r: Result<()>)
      requires Valid(Now()) && TokenOk(tok)
      modifies this
      ensures Does(r, Now(), Main(old(Now()), tok))
    {
      if IsOp(tok) {
        r := ProcessOp(tok);
        return;
      }
      r := Ok(());
      if tok.Literal? {
        Single(tok, Char(tok.c));
      } else if tok == AnyTok {
        Single(tok, Any);
      } else if tok == Sol {
        Single(tok, StartOfLine);
      } else if tok == Eol {
        Single(tok, EndOfLine);
      } else {
        r := Delimiter(tok);
      }
    }

    /** expand_char_range: both ends and everything between, whichever end is the higher. */
    method ExpandCharRange(from: char, to: char)
      requires from < '\U{7f}' && to < '\U{7f}'
      modifies `strb
      ensures strb == old(strb) + if from > to then CharsFrom(to, from) else CharsFrom(from, to)
    {
      var hi, lo := to, from;
      if from > to {
        hi, lo := from, to;
      }
      ghost var all := CharsFrom(lo, hi);
      while lo <= hi
        invariant lo <= '\U{7f}'
        invariant strb + CharsFrom(lo, hi) == old(strb) + all
        decreases hi as int - lo as int
      {
        assert CharsFrom(lo, hi) == [lo] + CharsFrom((lo as int + 1) as char, hi);
        strb := strb + [lo];
        lo := (lo as int + 1) as char;
      }
      assert strb + "" == strb;
    }

    /** stage1_charc_state. */
    method CharcState(tok: Token) returns (r: Result<()>)
      requires Valid(Now())
      modifies this
      ensures Does(r, Now(), Charc(old(Now()), tok))
    {
      r := Ok(());
      match tok {
        case Literal(c) =>
          if c == '^' && !negated {
            negated := true;
          } else {
            strb := strb + [c];
          }
        case CharRange(from, to) =>
          if from < '\U{7f}' && to < '\U{7f}' {
            ExpandCharRange(from, to);
          } else {
            r := Err(Undefined);
          }
        case CharcClose =>
          var inst := if negated then NClass(strb) else Class(strb);
          inClass, negated := false, false;
          if strb != "" {
            AddOperand(0, inst);
          }
        case _ => r := Err(EInval);
      }
    }

    /** One turn of the loop of stage1. */
    method HandleToken(tok: Token) returns (r: Result<()>)
      requires Valid(Now()) && TokenOk(tok) && !tok.Fail?
      modifies this
      ensures Does(r, Now(), Take(old(Now()), tok))
    {
      if inClass {
        r := CharcState(tok);
      } else {
        r := MainState(tok);
      }
      if tok != RParen {
        afterGroup := false;
      }
    }

    /** What stage1 does when the pattern is at its end. */
    method End() returns (r: Result<Compiled>)
      requires Valid(Now())
      modifies this
      ensures r == Finish(old(Now()))
    {
      if afterGroup && parens[buf].code != [] {
        prog := prog.(code := prog.code + parens[buf].code);
        parens := parens[..|parens| - 1];
        buf := 0;
        afterGroup := false;
      }
      if inClass {
        return Err(EClass);
      } else if |parens| != 1 {
        return Err(EParen);
      }
      prog := prog.(code := prog.code + parens[0].code);
      AttachDanglingAlt();
      prog := prog.(code := prog.code + [Match]);
      r := Ok(Code(prog.code, chained));
    }
  }

  lemma CloseIs(c: Ctx, attached: Ctx, now: Ctx)
    requires Valid(c) && |c.parens| > 1 && |attached.parens| == |c.parens|
    requires var c1 := FlushLiterals(c); attached == SetTarget(c1, Attach(Target(c1)))
    requires var top := |attached.parens| - 1;
      now == attached.(operand := (top, 0), buf := top, target := top - 1, afterGroup := true)
    ensures Valid(now) && now == CloseGroup(c)
  {
  }

  lemma AltIs(c: Ctx, c1: Ctx, now: Ctx)
    requires Valid(c) && Valid(c1) && (exists code :: c1 == Emit(c, code))
    requires var chained := c1.chained || Target(c1).dsize != 0; var c2 := c1.(chained := chained);
      now == SetTarget(c2, Alternate(Target(c2)))
    ensures Valid(now)
    ensures now == SetTarget(c1, Alternate(Target(c1))).(chained := c.chained || Target(c).dsize != 0)
  {
  }

  /** The state just before the buffer is used up, and what Op makes of it. */
  lemma OpIs(c: Ctx, tok: Token, k: nat, now: Ctx)
    requires Valid(c) && IsOp(tok) && (if Buf(c) == [] then k == 0 && tok == Alt else c.operand == (c.buf, k))
    requires k <= |Buf(c)| && (Buf(c) != [] ==> k < |Buf(c)|) && OpCode(tok, Buf(c)[k..]).Ok?
    requires var c1 := Emit(c, Buf(c)[..k] + OpCode(tok, Buf(c)[k..]).value);
      now == if tok == Alt
             then SetTarget(c1, Alternate(Target(c1))).(chained := c.chained || Target(c).dsize != 0)
             else c1
    ensures Valid(now) && Op(c, tok) == Ok(Consume(now))
  {
  }
}
