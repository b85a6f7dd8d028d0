/** librxvm/lex.c: the tokenizer. A token carries what stage 1 reads from the pattern through
    lp1 and lpn: the literal, the ends of a range, the text between braces. */
module Lexer {
  import opened Regex

  datatype Error =
    | BadOp | BadClass | BadRep | BadParen | EParen | EClass | ERep | ERange | EComma | EDigit
    | MRep | ETrail | EInval
    | Undefined  // the C code would follow a stale pointer here

  datatype Token =
    | CharcOpen | CharcClose | CharRange(from: char, to: char)
    | LParen | RParen
    | One | Zero | OneZero | Alt | Rep(counts: string)
    | AnyTok | Literal(c: char) | Sol | Eol
    | InvalidSym
    | End
    | Fail(error: Error)

  datatype Lexed = Lexed(tok: Token, next: int, literal: bool)

  // ----- what lex returns, token by token -----

  /** The tokens that are one metacharacter each. */
  function MetaToken(c: char): Token {
    match c
    case '(' => LParen
    case ')' => RParen
    case '+' => One
    case '?' => OneZero
    case '*' => Zero
    case '.' => AnyTok
    case '^' => Sol
    case '$' => Eol
    case '|' => Alt
    case '}' => Fail(BadRep)
    case _ => InvalidSym
  }

  function LexAt(text: string, p: int, literal: bool): (r: Lexed)
    requires 0 <= p <= |text|
    ensures p <= r.next <= |text|
    ensures r.tok != End && !r.tok.Fail? ==> p < r.next
    ensures r.tok == End <==> p == |text|
  {
    if p == |text| then Lexed(End, p, literal)
    else if text[p] == '\\' then
      if p + 1 == |text| then Lexed(Fail(ETrail), p + 1, literal) else LiteralAt(text, p + 1, literal)
    else if text[p] == ']' then Lexed(CharcClose, p + 1, false)
    else if literal then
      if Meta(text[p]) || Printable(text[p]) then LiteralAt(text, p, literal) else Lexed(Fail(EInval), p, literal)
    else if text[p] == '[' then Lexed(CharcOpen, p + 1, true)
    else if text[p] == '{' then
      var r := RepAt(text, p, p + 1, false);
      Lexed(r.0, r.1, literal)
    else if Meta(text[p]) then Lexed(MetaToken(text[p]), p + 1, literal)
    else if Printable(text[p]) then LiteralAt(text, p, literal)
    else Lexed(Fail(EInval), p, literal)
  }

  /** A character taken literally; between brackets it may open a range. */
  function LiteralAt(text: string, q: int, literal: bool): (r: Lexed)
    requires 0 <= q < |text|
    ensures q <= r.next <= |text|
    ensures !r.tok.Fail? ==> q < r.next
    ensures r.tok.Literal? || r.tok.CharRange? || r.tok.InvalidSym? || r.tok.Fail?
  {
    if literal && text[q] == '-' && (q == 0 || text[q - 1] != '\\') then Lexed(Fail(ERange), q, literal)
    else if literal && CharAt(text, q + 1) == '-' then
      var r := RangeAt(text, q, q + 2);
      Lexed(r.0, r.1, literal)
    else Lexed(Literal(text[q]), q + 1, literal)
  }

  function RangeAt(text: string, q: int, r: int): (res: (Token, int))
    requires 0 <= q < r <= |text|
    ensures r <= res.1 <= |text|
    ensures res.0.CharRange? || res.0.InvalidSym? || res.0.Fail?
    decreases |text| - r
  {
    if r == |text| then (InvalidSym, r)
    else if text[r] == '\\' then
      if r + 1 == |text| then (Fail(ETrail), r + 1)
      else if Printable(text[r + 1]) then (CharRange(text[q], text[r + 1]), r + 2)
      else RangeAt(text, q, r + 1)
    else if Printable(text[r]) && text[r] != '[' && text[r] != ']' then (CharRange(text[q], text[r]), r + 1)
    else (Fail(ERange), r)
  }

  /** The rest of a repetition opened at p. */
  function RepAt(text: string, p: int, r: int, comma: bool): (res: (Token, int))
    requires 0 <= p < r <= |text|
    ensures r <= res.1 <= |text|
    ensures res.0.Fail? || res.0.Rep?
    decreases |text| - r
  {
    if r == |text| then (Fail(ERep), r)
    else if text[r] == '}' then
      if !IsDigit(text[r - 1]) && !IsDigit(text[p + 1]) then (Fail(MRep), r) else (Rep(text[p + 1..r]), r + 1)
    else if text[r] == ',' then
      if comma then (Fail(EComma), r) else RepAt(text, p, r + 1, true)
    else if !IsDigit(text[r]) then (Fail(EDigit), r)
    else RepAt(text, p, r + 1, comma)
  }

  /** The text between braces: digits, at most one comma, and not a comma alone. */
  predicate RepText(s: string) {
    && (exists k :: 0 <= k < |s| && IsDigit(s[k]))
    && (forall k :: 0 <= k < |s| ==> IsDigit(s[k]) || s[k] == ',')
    && (forall j, k :: 0 <= j < k < |s| ==> !(s[j] == ',' && s[k] == ','))
  }

  predicate TokenOk(tok: Token) { tok.Rep? ==> RepText(tok.counts) }

  lemma {:induction false} RepAtOk(text: string, p: int, r: int, comma: bool)
    requires 0 <= p < r <= |text| && !IsDigit(text[p])
    requires forall k :: p < k < r ==> IsDigit(text[k]) || (comma && text[k] == ',')
    requires forall j, k :: p < j < k < r ==> !(text[j] == ',' && text[k] == ',')
    ensures TokenOk(RepAt(text, p, r, comma).0)
    decreases |text| - r
  {
    if r < |text| {
      if text[r] == '}' {
        if IsDigit(text[r - 1]) || IsDigit(text[p + 1]) {
          var s := text[p + 1..r];
          assert IsDigit(s[0]) || IsDigit(s[|s| - 1]);
        }
      } else if text[r] == ',' && !comma {
        RepAtOk(text, p, r + 1, true);
      } else if IsDigit(text[r]) {
        RepAtOk(text, p, r + 1, comma);
      }
    }
  }

  lemma LexAtOk(text: string, p: int, literal: bool)
    requires 0 <= p <= |text|
    ensures TokenOk(LexAt(text, p, literal).tok)
  {
    if p < |text| && text[p] == '{' { RepAtOk(text, p, p + 1, false); }
  }

  /** All tokens from p on, up to the end or the first error. */
  function LexAll(text: string, p: int, literal: bool): seq<Token>
    requires 0 <= p <= |text|
    decreases |text| - p
  {
    var r := LexAt(text, p, literal);
    if r.tok == End || r.tok.Fail? then [r.tok] else [r.tok] + LexAll(text, r.next, r.literal)
  }

  // ----- the tokenizer itself -----

  datatype LexState = Start | InLiteral | InRange | InRep | Stop

  class Scanner {
    const text: string
    var pos: int
    var literal: bool
    var lp1: int

    ghost predicate Valid()
      reads this
    {
      0 <= pos <= |text|
    }

    /** lex_init, with the input pointer at the start of the pattern. */
    constructor (text: string)
      ensures this.text == text && pos == 0 && !literal && Valid()
    {
      this.text := text;
      pos, literal, lp1 := 0, false, 0;
    }

    /** trans: between brackets a metacharacter is taken literally. */
    method Trans(tok: Token, state: LexState, ret: Token) returns (state': LexState, ret': Token)
      requires Valid() && pos < |text|
      modifies `pos
      ensures Valid()
      ensures literal ==> state' == InLiteral && ret' == ret && pos == old(pos)
      ensures !literal ==> state' == state && ret' == tok && pos == old(pos) + 1
    {
      if literal {
        state', ret' := InLiteral, ret;
      } else {
        state', ret' := state, tok;
        pos := pos + 1;
      }
    }

    /** What is known in each state, `want` being the answer the call has to give. */
    ghost predicate Inside(state: LexState, ret: Token, comma: bool, start: int, want: Lexed)
      reads this
    {
      && Valid() && 0 <= start <= pos
      && match state
         case Start => pos == start == lp1 && start < |text| && ret == InvalidSym && want == LexAt(text, start, literal)
         case InLiteral => pos == lp1 < |text| && ret == InvalidSym && want == LiteralAt(text, pos, literal)
         case InRange =>
           && 0 <= lp1 < pos && ret == InvalidSym && literal
           && want == Lexed(RangeAt(text, lp1, pos).0, RangeAt(text, lp1, pos).1, true)
         case InRep =>
           && ret == InvalidSym && start == lp1 < pos && !literal
           && want == Lexed(RepAt(text, start, pos, comma).0, RepAt(text, start, pos, comma).1, false)
         case Stop => ret == want.tok && (ret.Fail? || (pos == want.next && literal == want.literal))
    }

    method OnStart(ghost start: int, ghost want: Lexed) returns (state: LexState, ret: Token)
      requires Inside(Start, InvalidSym, false, start, want)
      modifies this
      ensures Inside(state, ret, false, start, want) && state != Start
    {
      var c := text[pos];
      state, ret := Start, InvalidSym;
      if c == '\\' {
        pos := pos + 1;
        if pos == |text| {
          return Stop, Fail(ETrail);
        }
        lp1 := lp1 + 1;
        state := InLiteral;
      } else if c == '[' {
        state, ret := Trans(CharcOpen, Stop, ret);
        literal := true;
      } else if c == ']' {
        pos := pos + 1;
        state, ret, literal := Stop, CharcClose, false;
      } else if c == '{' {
        state, ret := Trans(InvalidSym, InRep, ret);
      } else if Meta(c) {
        state, ret := Trans(MetaToken(c), Stop, ret);
      } else if Printable(c) {
        state := InLiteral;
      } else {
        state, ret := Stop, Fail(EInval);
      }
    }

    method OnLiteral(ghost start: int, ghost want: Lexed) returns (state: LexState, ret: Token)
      requires Inside(InLiteral, InvalidSym, false, start, want)
      modifies `pos
      ensures Inside(state, ret, false, start, want) && pos >= old(pos) && (state == Stop || pos > old(pos))
    {
      var c := text[pos];
      if c == '-' && literal && (pos == 0 || text[pos - 1] != '\\') {
        return Stop, Fail(ERange);
      } else if CharAt(text, pos + 1) == '-' && literal {
        state, ret := InRange, InvalidSym;
        pos := pos + 2;
      } else {
        state, ret := Stop, Literal(c);
        pos := pos + 1;
      }
    }

    method OnRange(ghost start: int, ghost want: Lexed) returns (state: LexState, ret: Token)
      requires Inside(InRange, InvalidSym, false, start, want) && pos < |text|
      modifies `pos
      ensures Inside(state, ret, false, start, want) && pos >= old(pos) && (state == Stop || pos > old(pos))
    {
      var c := text[pos];
      state, ret := InRange, InvalidSym;
      if c == '\\' {
        pos := pos + 1;
        if pos == |text| {
          return Stop, Fail(ETrail);
        }
        if Printable(text[pos]) {
          state, ret := Stop, CharRange(text[lp1], text[pos]);
          pos := pos + 1;
        }
      } else if Printable(c) && c != '[' && c != ']' {
        state, ret := Stop, CharRange(text[lp1], c);
        pos := pos + 1;
      } else {
        state, ret := Stop, Fail(ERange);
      }
    }

    method OnRep(comma: bool, ghost start: int, ghost want: Lexed) returns (state: LexState, ret: Token, comma': bool)
      requires Inside(InRep, InvalidSym, comma, start, want) && pos < |text|
      modifies `pos
      ensures Inside(state, ret, comma', start, want) && pos > old(pos)
    {
      var c := text[pos];
      state, ret, comma' := InRep, InvalidSym, comma;
      if c == '}' {
        if !IsDigit(text[pos - 1]) && !IsDigit(text[lp1 + 1]) {
          ret := Fail(MRep);
        } else {
          ret := Rep(text[lp1 + 1..pos]);
        }
        state := Stop;
      } else if c == ',' {
        if comma {
          state, ret := Stop, Fail(EComma);
        }
        comma' := true;
      } else if !IsDigit(c) {
        state, ret := Stop, Fail(EDigit);
      }
      pos := pos + 1;
    }

    /** lex: one token per call, by a state machine over the characters. */
    method Lex() returns (ret: Token)
      requires Valid()
      modifies this
      ensures Valid()
      ensures var r := LexAt(text, old(pos), old(literal));
              ret == r.tok && (ret.Fail? || (pos == r.next && literal == r.literal))
    {
      ghost var want := LexAt(text, pos, literal);
      ghost var start := pos;
      var comma := false;
      var state := Start;
      ret := InvalidSym;
      if pos == |text| {
        return End;
      }
      lp1 := pos;
      while state != Stop && pos < |text|
        invariant Inside(state, ret, comma, start, want)
        invariant state != InRep ==> !comma || state == Stop
        decreases |text| - pos, if state == Start then 2 else if state == Stop then 0 else 1
      {
        match state {
          case Start => state, ret := OnStart(start, want);
          case InLiteral => state, ret := OnLiteral(start, want);
          case InRange => state, ret := OnRange(start, want);
          case InRep => state, ret, comma := OnRep(comma, start, want);
        }
      }
      if state == InRep {
        ret := Fail(ERep);
      }
    }
  }
}
