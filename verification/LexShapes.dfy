/** Which stretch of a text each token stands for, and where the lexer stops with which error: stated
    of the characters, for every text. SentenceLexes says what the text of a tree gives; here the
    other direction is shown too. */
module LexShapes {
  import opened Regex
  import opened Lexer

  // ----- characters -----

  /** The characters that may stand for themselves: printable ones, bell to carriage return. */
  predicate Ordinary(c: char) { 32 <= c as int <= 126 || 7 <= c as int <= 13 }

  predicate Reserved(c: char) { c in "[](){}+*?.|^$\\" }

  // ----- spellings -----

  /** Outside brackets: a mark, counts between braces, or one character. */
  predicate SpeltOutside(text: string, p: int, tok: Token, next: int)
    requires 0 <= p < |text|
  {
    var c := text[p];
    match tok
    case LParen => c == '(' && next == p + 1
    case RParen => c == ')' && next == p + 1
    case One => c == '+' && next == p + 1
    case Zero => c == '*' && next == p + 1
    case OneZero => c == '?' && next == p + 1
    case Alt => c == '|' && next == p + 1
    case AnyTok => c == '.' && next == p + 1
    case Sol => c == '^' && next == p + 1
    case Eol => c == '$' && next == p + 1
    case CharcOpen => c == '[' && next == p + 1
    case CharcClose => c == ']' && next == p + 1
    case Rep(counts) =>
      && c == '{' && p + 1 < next <= |text| && text[p + 1..next - 1] == counts && text[next - 1] == '}'
      && RepText(counts)
    case Literal(ch) => Escaped(text, p, ch, next) || (c == ch && Ordinary(ch) && !Reserved(ch) && next == p + 1)
    case _ => false
  }

  predicate Escaped(text: string, p: int, ch: char, next: int)
    requires 0 <= p < |text|
  {
    text[p] == '\\' && p + 1 < |text| && text[p + 1] == ch && next == p + 2
  }

  /** A minus that has no backslash before it: no character of a set. */
  predicate Minus(text: string, p: int)
    requires 0 <= p < |text|
  {
    text[p] == '-' && (p == 0 || text[p - 1] != '\\')
  }

  /** One character of a set, ending at next. */
  predicate Member(text: string, p: int, ch: char, next: int)
    requires 0 <= p < |text|
  {
    || Escaped(text, p, ch, next)
    || (text[p] == ch && Ordinary(ch) && ch != ']' && ch != '\\' && !Minus(text, p) && next == p + 1)
  }

  /** A member with a minus behind it, at m. */
  predicate RangeFrom(text: string, p: int, ch: char, m: int)
    requires 0 <= p < |text|
  {
    Member(text, p, ch, m) && m < |text| && text[m] == '-'
  }

  /** The upper end of a range. */
  predicate RangeTo(text: string, p: int, ch: char, next: int)
    requires 0 <= p < |text|
  {
    Ordinary(ch) &&
    (Escaped(text, p, ch, next) || (text[p] == ch && ch != '[' && ch != ']' && ch != '\\' && next == p + 1))
  }

  /** Where the member at p ends. */
  function MemberEnd(text: string, p: int): int
    requires 0 <= p < |text|
  {
    if text[p] == '\\' then p + 2 else p + 1
  }

  /** Between brackets: the closing one, a character, a range, or a range that the end cuts off. */
  predicate SpeltInside(text: string, p: int, tok: Token, next: int)
    requires 0 <= p < |text|
  {
    var m := MemberEnd(text, p);
    match tok
    case CharcClose => text[p] == ']' && next == p + 1
    case Literal(ch) => Member(text, p, ch, next) && !(next < |text| && text[next] == '-')
    case CharRange(from, to) => RangeFrom(text, p, from, m) && m + 1 < |text| && RangeTo(text, m + 1, to, next)
    case InvalidSym => m <= |text| && RangeFrom(text, p, text[m - 1], m) && m + 1 == |text| == next
    case _ => false
  }

  predicate Spelt(text: string, p: int, inside: bool, tok: Token, next: int) {
    0 <= p < |text| && if inside then SpeltInside(text, p, tok, next) else SpeltOutside(text, p, tok, next)
  }

  // ----- errors -----

  /** The start of counts: digits and at most one comma, not closed. */
  predicate CountsOpen(text: string, p: int, r: int) {
    && 0 <= p < r <= |text| && text[p] == '{'
    && (forall k :: p < k < r ==> IsDigit(text[k]) || text[k] == ',')
    && (forall j, k :: p < j < k < r ==> !(text[j] == ',' && text[k] == ','))
  }

  /** What is at r makes counts wrong. */
  predicate CountsWrong(text: string, p: int, r: int, e: Error)
    requires 0 <= p < r <= |text|
  {
    match e
    case ERep => r == |text|
    case MRep => r < |text| && text[r] == '}' && (r == p + 1 || (r == p + 2 && text[p + 1] == ','))
    case EComma => r < |text| && text[r] == ',' && ',' in text[p + 1..r]
    case EDigit => r < |text| && text[r] != '}' && text[r] != ',' && !IsDigit(text[r])
    case _ => false
  }

  predicate FailsOutside(text: string, p: int, e: Error)
    requires 0 <= p < |text|
  {
    match e
    case ETrail => text[p] == '\\' && p + 1 == |text|
    case EInval => !Ordinary(text[p])
    case BadRep => text[p] == '}'
    case _ => exists r :: p < r <= |text| && CountsOpen(text, p, r) && CountsWrong(text, p, r, e)
  }

  predicate FailsInside(text: string, p: int, e: Error)
    requires 0 <= p < |text|
  {
    var m := MemberEnd(text, p);
    match e
    case ETrail =>
      || (text[p] == '\\' && p + 1 == |text|)
      || (m <= |text| && RangeFrom(text, p, text[m - 1], m) && m + 2 == |text| && text[m + 1] == '\\')
    case EInval => !Ordinary(text[p])
    case ERange =>
      || Minus(text, p)
      || (m <= |text| && RangeFrom(text, p, text[m - 1], m) && m + 1 < |text| && NoEnd(text, m + 1))
    case _ => false
  }

  /** A bracket, or a character that is not ordinary: no end of a range. */
  predicate NoEnd(text: string, q: int)
    requires 0 <= q < |text|
  {
    || !Ordinary(text[q]) || text[q] == '[' || text[q] == ']'
    || (text[q] == '\\' && q + 1 < |text| && !Ordinary(text[q + 1]))
  }

  predicate Fails(text: string, p: int, inside: bool, e: Error) {
    0 <= p < |text| && if inside then FailsInside(text, p, e) else FailsOutside(text, p, e)
  }

  // ----- one call of the lexer -----

  lemma CharsAgree(c: char)
    ensures Printable(c) == Ordinary(c) && Meta(c) == Reserved(c)
    ensures Reserved(c) ==> Ordinary(c)
  {
  }

  /** The answer of a call, in the terms above. */
  predicate Told(text: string, p: int, inside: bool, r: Lexed) {
    match r.tok
    case End => p == |text| && r.next == p && r.literal == inside
    case Fail(e) => Fails(text, p, inside, e)
    case _ =>
      && Spelt(text, p, inside, r.tok, r.next)
      && r.literal == if inside then r.tok != CharcClose else r.tok == CharcOpen
  }

  lemma {:induction false} CountsTold(text: string, p: int, r: int, comma: bool)
    requires CountsOpen(text, p, r) && comma == (',' in text[p + 1..r])
    ensures var res := RepAt(text, p, r, comma);
      match res.0
      case Fail(e) => FailsOutside(text, p, e)
      case _ => SpeltOutside(text, p, res.0, res.1)
    decreases |text| - r
  {
    var res := RepAt(text, p, r, comma);
    if r < |text| && (IsDigit(text[r]) || (text[r] == ',' && !comma)) {
      assert text[p + 1..r + 1] == text[p + 1..r] + [text[r]];
      CountsMore(text, p, r);
      CountsTold(text, p, r + 1, comma || text[r] == ',');
    } else if r < |text| && text[r] == '}' {
      CountsClosed(text, p, r);
    } else {
      assert CountsWrong(text, p, r, res.0.error);
    }
  }

  lemma CountsMore(text: string, p: int, r: int)
    requires CountsOpen(text, p, r) && r < |text|
    requires IsDigit(text[r]) || (text[r] == ',' && ',' !in text[p + 1..r])
    ensures CountsOpen(text, p, r + 1)
  {
    forall j, k | p < j < k < r + 1 ensures !(text[j] == ',' && text[k] == ',') {
      if k == r { assert text[p + 1..r][j - p - 1] == text[j]; }
    }
  }

  /** The brace that closes counts, with a digit at one of the ends or with none at all. */
  lemma CountsClosed(text: string, p: int, r: int)
    requires CountsOpen(text, p, r) && r < |text| && text[r] == '}'
    ensures IsDigit(text[r - 1]) || IsDigit(text[p + 1]) <==> RepText(text[p + 1..r])
    ensures !RepText(text[p + 1..r]) <==> CountsWrong(text, p, r, MRep)
  {
    var s := text[p + 1..r];
    assert forall k :: 0 <= k < |s| ==> s[k] == text[p + 1 + k];
    if |s| > 0 { assert s[0] == text[p + 1] && s[|s| - 1] == text[r - 1]; }
  }

  /** Behind the minus of a range. */
  lemma RangeTold(text: string, q: int, r: int)
    requires 0 <= q < r <= |text|
    ensures var (tok, next) := RangeAt(text, q, r);
      match tok
      case CharRange(from, to) => from == text[q] && r < |text| && RangeTo(text, r, to, next)
      case InvalidSym => r == |text| == next
      case Fail(e) =>
        || (e == ETrail && r + 1 == |text| && text[r] == '\\')
        || (e == ERange && r < |text| && NoEnd(text, r))
  {
    if r < |text| { CharsAgree(text[r]); }
    if r + 1 < |text| { CharsAgree(text[r + 1]); }
  }

  lemma LiteralTold(text: string, p: int)
    requires 0 <= p < |text| && text[p] != ']'
    ensures Told(text, p, true, LexAt(text, p, true))
  {
    CharsAgree(text[p]);
    var m := MemberEnd(text, p);
    if m < |text| && text[m] == '-' { RangeTold(text, m - 1, m + 1); }
  }

  lemma CallTold(text: string, p: int, inside: bool)
    requires 0 <= p <= |text|
    ensures Told(text, p, inside, LexAt(text, p, inside))
  {
    if p < |text| {
      CharsAgree(text[p]);
      if !inside && text[p] == '{' {
        CountsTold(text, p, p + 1, false);
      } else if inside && text[p] != ']' {
        LiteralTold(text, p);
      }
    }
  }

  // ----- the shapes decide the call -----

  lemma {:induction false} CountsRun(text: string, p: int, r: int, comma: bool, e: int)
    requires CountsOpen(text, p, e) && p < r <= e && comma == (',' in text[p + 1..r])
    ensures RepAt(text, p, r, comma) == RepAt(text, p, e, ',' in text[p + 1..e])
    decreases e - r
  {
    if r < e {
      assert text[p + 1..r + 1] == text[p + 1..r] + [text[r]];
      CountsRun(text, p, r + 1, comma || text[r] == ',', e);
    }
  }

  lemma CountsText(text: string, p: int, e: int)
    requires 0 <= p < e <= |text| && text[p] == '{' && RepText(text[p + 1..e])
    ensures CountsOpen(text, p, e)
  {
    var s := text[p + 1..e];
    assert forall k :: p < k < e ==> text[k] == s[k - p - 1];
  }

  lemma SpeltCounts(text: string, p: int, tok: Token, next: int)
    requires 0 <= p < |text| && tok.Rep? && SpeltOutside(text, p, tok, next)
    ensures LexAt(text, p, false) == Lexed(tok, next, false)
  {
    var e := next - 1;
    CountsText(text, p, e);
    CountsRun(text, p, p + 1, false, e);
    CountsClosed(text, p, e);
  }

  lemma SpeltCall(text: string, p: int, inside: bool, tok: Token, next: int)
    requires Spelt(text, p, inside, tok, next)
    ensures LexAt(text, p, inside) == Lexed(tok, next, if inside then tok != CharcClose else tok == CharcOpen)
  {
    CharsAgree(text[p]);
    if inside {
      var m := MemberEnd(text, p);
      if m + 1 < |text| { CharsAgree(text[m + 1]); }
      if m + 2 < |text| { CharsAgree(text[m + 2]); }
    } else if tok.Rep? {
      SpeltCounts(text, p, tok, next);
    }
  }

  lemma FailsCounts(text: string, p: int, r: int, e: Error)
    requires CountsOpen(text, p, r) && CountsWrong(text, p, r, e)
    ensures LexAt(text, p, false).tok == Fail(e)
  {
    CountsRun(text, p, p + 1, false, r);
    if e == MRep { CountsClosed(text, p, r); }
  }

  lemma NoEndFails(text: string, q: int, r: int)
    requires 0 <= q < r < |text| && NoEnd(text, r)
    ensures RangeAt(text, q, r) == (Fail(ERange), if text[r] == '\\' then r + 1 else r)
  {
    CharsAgree(text[r]);
    if text[r] == '\\' {
      CharsAgree(text[r + 1]);
      assert RangeAt(text, q, r) == RangeAt(text, q, r + 1);
    }
  }

  lemma FailsCall(text: string, p: int, inside: bool, e: Error)
    requires Fails(text, p, inside, e)
    ensures LexAt(text, p, inside).tok == Fail(e)
  {
    CharsAgree(text[p]);
    if inside {
      var m := MemberEnd(text, p);
      if m + 1 < |text| && NoEnd(text, m + 1) { NoEndFails(text, m - 1, m + 1); }
    } else if e != ETrail && e != EInval && e != BadRep {
      var r :| p < r <= |text| && CountsOpen(text, p, r) && CountsWrong(text, p, r, e);
      FailsCounts(text, p, r, e);
    }
  }

  /** One call: which token, from where to where, and which error, by the characters alone. */
  lemma CallExact(text: string, p: int, inside: bool, tok: Token, next: int, e: Error)
    requires 0 <= p <= |text|
    ensures LexAt(text, p, inside).tok == End <==> p == |text|
    ensures LexAt(text, p, inside).tok == Fail(e) <==> Fails(text, p, inside, e)
    ensures tok != End && !tok.Fail? ==>
      var r := LexAt(text, p, inside);
      (r.tok == tok && r.next == next) <==> Spelt(text, p, inside, tok, next)
  {
    CallTold(text, p, inside);
    if Fails(text, p, inside, e) { FailsCall(text, p, inside, e); }
    if Spelt(text, p, inside, tok, next) { SpeltCall(text, p, inside, tok, next); }
  }

  // ----- a whole text -----

  /** Between brackets behind these tokens. */
  predicate Inside(toks: seq<Token>)
    decreases |toks|
  {
    toks != [] &&
    var n := |toks| - 1;
    if Inside(toks[..n]) then toks[n] != CharcClose else toks[n] == CharcOpen
  }

  /** The text from 0 to the last stop is the spellings of toks, one behind the other. */
  predicate SpeltOut(text: string, stops: seq<int>, toks: seq<Token>) {
    && |stops| == |toks| + 1 && stops[0] == 0 && 0 <= stops[|toks|] <= |text|
    && forall k :: 0 <= k < |toks| ==> SpeltAt(text, stops, toks, k)
  }

  predicate SpeltAt(text: string, stops: seq<int>, toks: seq<Token>, k: int)
    requires |stops| == |toks| + 1
  {
    0 <= k < |toks| && Spelt(text, stops[k], Inside(toks[..k]), toks[k], stops[k + 1])
  }

  lemma InsideNext(toks: seq<Token>, k: int)
    requires 0 <= k < |toks|
    ensures Inside(toks[..k + 1]) <==> if Inside(toks[..k]) then toks[k] != CharcClose else toks[k] == CharcOpen
  {
    assert toks[..k + 1][..k] == toks[..k];
  }

  lemma SpeltFirst(text: string, p: int, inside: bool, tok: Token, next: int)
    requires Spelt(text, p, inside, tok, next)
    ensures p < next <= |text|
    ensures LexAll(text, p, inside) ==
            [tok] + LexAll(text, next, if inside then tok != CharcClose else tok == CharcOpen)
  {
    SpeltCall(text, p, inside, tok, next);
  }

  /** What LexAll gives from the stop of token k on. */
  lemma {:induction false} SpeltAll(text: string, stops: seq<int>, toks: seq<Token>, last: Token, k: int, p: int)
    requires SpeltOut(text, stops, toks) && 0 <= k <= |toks| && p == stops[k] && 0 <= p <= |text|
    requires last == LexAt(text, stops[|toks|], Inside(toks)).tok && (last == End || last.Fail?)
    ensures LexAll(text, p, Inside(toks[..k])) == toks[k..] + [last]
    decreases |toks| - k
  {
    if k == |toks| {
      assert toks[..k] == toks && toks[k..] == [];
    } else {
      assert SpeltAt(text, stops, toks, k);
      SpeltFirst(text, p, Inside(toks[..k]), toks[k], stops[k + 1]);
      InsideNext(toks, k);
      SpeltAll(text, stops, toks, last, k + 1, stops[k + 1]);
      assert toks[k..] + [last] == [toks[k]] + (toks[k + 1..] + [last]);
    }
  }

  /** The stops behind token k, found from those before it. */
  lemma {:induction false} StopsOn(text: string, before: seq<int>, toks: seq<Token>, last: Token, k: int)
      returns (stops: seq<int>)
    requires 0 <= k <= |toks| && |before| == k + 1 && before[0] == 0 && 0 <= before[k] <= |text|
    requires forall j :: 0 <= j < k ==> Spelt(text, before[j], Inside(toks[..j]), toks[j], before[j + 1])
    requires LexAll(text, before[k], Inside(toks[..k])) == toks[k..] + [last]
    ensures SpeltOut(text, stops, toks) && LexAt(text, stops[|toks|], Inside(toks)).tok == last
    decreases |toks| - k
  {
    var r := LexAt(text, before[k], Inside(toks[..k]));
    CallTold(text, before[k], Inside(toks[..k]));
    assert (toks[k..] + [last])[0] == r.tok;
    if k == |toks| {
      stops := before;
      assert toks[..k] == toks;
    } else {
      InsideNext(toks, k);
      assert (toks[k..] + [last])[1..] == toks[k + 1..] + [last];
      stops := StopsOn(text, before + [r.next], toks, last, k + 1);
    }
  }

  /** What ends the tokens: the end of the text, or an error at the last stop. */
  predicate EndsWith(text: string, stops: seq<int>, toks: seq<Token>, last: Token)
    requires SpeltOut(text, stops, toks)
  {
    match last
    case End => stops[|toks|] == |text|
    case Fail(e) => Fails(text, stops[|toks|], Inside(toks), e)
    case _ => false
  }

  /** Every text: its tokens are those that it spells, up to the end or to the shape that is wrong. */
  lemma LexesExactly(text: string, toks: seq<Token>, last: Token)
    requires last == End || last.Fail?
    ensures LexAll(text, 0, false) == toks + [last] <==>
      exists stops :: SpeltOut(text, stops, toks) && EndsWith(text, stops, toks, last)
  {
    if LexAll(text, 0, false) == toks + [last] {
      assert toks[..0] == [] && toks[0..] == toks;
      var stops := StopsOn(text, [0], toks, last, 0);
      LastCall(text, stops[|toks|], Inside(toks), last);
    }
    forall stops | SpeltOut(text, stops, toks) && EndsWith(text, stops, toks, last)
      ensures LexAll(text, 0, false) == toks + [last]
    {
      LastCall(text, stops[|toks|], Inside(toks), last);
      assert toks[..0] == [] && toks[0..] == toks;
      SpeltAll(text, stops, toks, last, 0, 0);
    }
  }

  lemma LastCall(text: string, p: int, inside: bool, last: Token)
    requires 0 <= p <= |text| && (last == End || last.Fail?)
    ensures LexAt(text, p, inside).tok == last <==>
      if last == End then p == |text| else Fails(text, p, inside, last.error)
  {
    CallTold(text, p, inside);
    if last.Fail? && Fails(text, p, inside, last.error) { FailsCall(text, p, inside, last.error); }
  }
}
