/** How the trees of Regex.dfy are written, which tokens they are, and that the lexer finds
    exactly those tokens. */
module Sentences {
  import opened Regex
  import opened Lexer

  // ----- writing -----

  function PrintChr(ch: Chr): string {
    if ch.escaped then ['\\', ch.c] else [ch.c]
  }

  function PrintItem(item: Item): string {
    match item
    case Single(ch) => PrintChr(ch)
    case Range(from, to) => PrintChr(from) + "-" + PrintChr(to)
  }

  function PrintItems(items: seq<Item>): string {
    if items == [] then "" else PrintItem(items[0]) + PrintItems(items[1..])
  }

  function PrintCounts(q: Quant): string
    requires q.Exactly? || q.AtLeast? || q.AtMost? || q.Between?
  {
    match q
    case Exactly(n) => n
    case AtLeast(n) => n + ","
    case AtMost(m) => "," + m
    case Between(n, m) => n + "," + m
  }

  function PrintQuant(q: Quant): string {
    match q
    case Once => ""
    case ZeroOrMore => "*"
    case OneOrMore => "+"
    case ZeroOrOne => "?"
    case _ => "{" + PrintCounts(q) + "}"
  }

  function PrintElem(e: Elem): string {
    match e
    case Group(re) => "(" + PrintRe(re) + ")"
    case AnyChar => "."
    case LineStart => "^"
    case LineEnd => "$"
    case Lit(ch) => PrintChr(ch)
    case Set(negated, items) => "[" + (if negated then "^" else "") + PrintItems(items) + "]"
  }

  function PrintBasic(b: Basic): string { PrintElem(b.elem) + PrintQuant(b.quant) }

  function PrintCat(c: Cat): string {
    match c
    case Empty => ""
    case Then(init, last) => PrintCat(init) + PrintBasic(last)
  }

  function PrintRe(re: Re): string {
    match re
    case Simple(c) => PrintCat(c)
    case Union(l, r) => PrintRe(l) + "|" + PrintCat(r)
  }

  // ----- tokens -----

  function ItemToken(item: Item): Token {
    match item
    case Single(ch) => Literal(ch.c)
    case Range(from, to) => CharRange(from.c, to.c)
  }

  function ItemTokens(items: seq<Item>): seq<Token> {
    if items == [] then [] else [ItemToken(items[0])] + ItemTokens(items[1..])
  }

  function QuantTokens(q: Quant): seq<Token> {
    match q
    case Once => []
    case ZeroOrMore => [Zero]
    case OneOrMore => [One]
    case ZeroOrOne => [OneZero]
    case _ => [Rep(PrintCounts(q))]
  }

  function SetTokens(negated: bool, items: seq<Item>): seq<Token> {
    [CharcOpen] + (if negated then [Literal('^')] else []) + ItemTokens(items) + [CharcClose]
  }

  function ElemTokens(e: Elem): seq<Token> {
    match e
    case Group(re) => [LParen] + ReTokens(re) + [RParen]
    case AnyChar => [AnyTok]
    case LineStart => [Sol]
    case LineEnd => [Eol]
    case Lit(ch) => [Literal(ch.c)]
    case Set(negated, items) => SetTokens(negated, items)
  }

  function BasicTokens(b: Basic): seq<Token> { ElemTokens(b.elem) + QuantTokens(b.quant) }

  function CatTokens(c: Cat): seq<Token> {
    match c
    case Empty => []
    case Then(init, last) => CatTokens(init) + BasicTokens(last)
  }

  function ReTokens(re: Re): seq<Token> {
    match re
    case Simple(c) => CatTokens(c)
    case Union(l, r) => ReTokens(l) + [Alt] + CatTokens(r)
  }

  // ----- lexing what is written -----

  ghost predicate Same(text: string, p: int, s: string, k: int)
    requires 0 <= p && p + |s| <= |text| && 0 <= k < |s|
  {
    text[p + k] == s[k]
  }

  /** s stands in text at p. */
  ghost predicate Stands(text: string, p: int, s: string) {
    && 0 <= p && p + |s| <= |text|
    && forall k {:trigger Same(text, p, s, k)} :: 0 <= k < |s| ==> Same(text, p, s, k)
  }

  lemma StandsAt(text: string, p: int, s: string, k: int)
    requires Stands(text, p, s) && 0 <= k < |s|
    ensures text[p + k] == s[k]
  {
    assert Same(text, p, s, k);
  }

  lemma StandsSplit(text: string, p: int, a: string, b: string)
    requires Stands(text, p, a + b)
    ensures Stands(text, p, a) && Stands(text, p + |a|, b)
  {
    forall k | 0 <= k < |a| ensures Same(text, p, a, k) {
      assert Same(text, p, a + b, k);
    }
    var m := p + |a|;
    forall k | 0 <= k < |b| ensures Same(text, m, b, k) {
      assert Same(text, p, a + b, |a| + k);
    }
  }

  lemma StandsSlice(text: string, p: int, s: string)
    requires Stands(text, p, s)
    ensures text[p..p + |s|] == s
  {
    forall k | 0 <= k < |s| ensures text[p + k] == s[k] {
      StandsAt(text, p, s, k);
    }
  }

  ghost predicate LexedAt(text: string, stops: seq<(int, bool)>, tokens: seq<Token>, k: int)
    requires |stops| == |tokens| + 1 && 0 <= k < |tokens| && 0 <= stops[k].0 <= |text|
  {
    && tokens[k] != End && !tokens[k].Fail?
    && LexAt(text, stops[k].0, stops[k].1) == Lexed(tokens[k], stops[k + 1].0, stops[k + 1].1)
  }

  /** The places between the tokens, and whether they are between brackets. */
  ghost predicate Walk(text: string, stops: seq<(int, bool)>, tokens: seq<Token>) {
    && |stops| == |tokens| + 1
    && (forall k :: 0 <= k < |stops| ==> 0 <= stops[k].0 <= |text|)
    && (forall k {:trigger LexedAt(text, stops, tokens, k)} :: 0 <= k < |tokens| ==> LexedAt(text, stops, tokens, k))
  }

  /** From p on the lexer gives these tokens and is then at p2; lit and lit2 say whether it is
      between brackets at the two ends. */
  ghost predicate Lexes(text: string, p: int, lit: bool, tokens: seq<Token>, p2: int, lit2: bool) {
    exists stops :: Walk(text, stops, tokens) && stops[0] == (p, lit) && stops[|tokens|] == (p2, lit2)
  }

  lemma LexesNone(text: string, p: int, lit: bool)
    requires 0 <= p <= |text|
    ensures Lexes(text, p, lit, [], p, lit)
  {
    assert Walk(text, [(p, lit)], []);
  }

  lemma LexesOne(text: string, p: int, lit: bool, tok: Token, p2: int, lit2: bool)
    requires 0 <= p <= |text| && tok != End && !tok.Fail? && LexAt(text, p, lit) == Lexed(tok, p2, lit2)
    ensures Lexes(text, p, lit, [tok], p2, lit2)
  {
    var stops := [(p, lit), (p2, lit2)];
    assert LexedAt(text, stops, [tok], 0);
    assert Walk(text, stops, [tok]);
  }

  lemma LexesConcat(text: string, p: int, lit: bool, t1: seq<Token>, m: int, mlit: bool,
                    t2: seq<Token>, p2: int, lit2: bool)
    requires Lexes(text, p, lit, t1, m, mlit) && Lexes(text, m, mlit, t2, p2, lit2)
    ensures Lexes(text, p, lit, t1 + t2, p2, lit2)
  {
    var s1 :| Walk(text, s1, t1) && s1[0] == (p, lit) && s1[|t1|] == (m, mlit);
    var s2 :| Walk(text, s2, t2) && s2[0] == (m, mlit) && s2[|t2|] == (p2, lit2);
    var stops := s1 + s2[1..];
    assert forall k :: 0 <= k < |t2| + 1 ==> stops[|t1| + k] == s2[k];
    forall k | 0 <= k < |t1 + t2| ensures LexedAt(text, stops, t1 + t2, k) {
      if k < |t1| { assert LexedAt(text, s1, t1, k); }
      else { assert LexedAt(text, s2, t2, k - |t1|); }
    }
    assert Walk(text, stops, t1 + t2);
  }

  lemma {:induction false} WalkAll(text: string, stops: seq<(int, bool)>, tokens: seq<Token>, k: int)
    requires Walk(text, stops, tokens) && 0 <= k <= |tokens|
    ensures LexAll(text, stops[k].0, stops[k].1) == tokens[k..] + LexAll(text, stops[|tokens|].0, stops[|tokens|].1)
    decreases |tokens| - k
  {
    if k < |tokens| {
      assert LexedAt(text, stops, tokens, k);
      WalkAll(text, stops, tokens, k + 1);
      assert tokens[k..] == [tokens[k]] + tokens[k + 1..];
    }
  }

  lemma LexesAll(text: string, p: int, lit: bool, tokens: seq<Token>, p2: int, lit2: bool)
    requires Lexes(text, p, lit, tokens, p2, lit2)
    ensures 0 <= p <= |text| && 0 <= p2 <= |text| && LexAll(text, p, lit) == tokens + LexAll(text, p2, lit2)
  {
    var stops :| Walk(text, stops, tokens) && stops[0] == (p, lit) && stops[|tokens|] == (p2, lit2);
    WalkAll(text, stops, tokens, 0);
  }

  lemma LexesThree(text: string, p: int, t1: seq<Token>, m1: int, lit1: bool, t2: seq<Token>, m2: int, lit2: bool,
                   t3: seq<Token>, p2: int)
    requires Lexes(text, p, false, t1, m1, lit1) && Lexes(text, m1, lit1, t2, m2, lit2)
    requires Lexes(text, m2, lit2, t3, p2, false)
    ensures Lexes(text, p, false, t1 + t2 + t3, p2, false)
  {
    LexesConcat(text, p, false, t1, m1, lit1, t2, m2, lit2);
    LexesConcat(text, p, false, t1 + t2, m2, lit2, t3, p2, false);
  }

  /** A token written as one metacharacter. */
  lemma LexMeta(text: string, p: int, c: char, tok: Token, p2: int)
    requires Stands(text, p, [c]) && c in {'(', ')', '+', '?', '*', '.', '^', '$', '|'}
    requires tok == MetaToken(c) && p2 == p + 1
    ensures Lexes(text, p, false, [tok], p2, false)
  {
    StandsAt(text, p, [c], 0);
    LexesOne(text, p, false, tok, p2, false);
  }

  lemma LexChr(text: string, p: int, ch: Chr, p2: int)
    requires ChrWritten(ch) && Stands(text, p, PrintChr(ch)) && p2 == p + |PrintChr(ch)|
    ensures Lexes(text, p, false, [Literal(ch.c)], p2, false)
  {
    var s := PrintChr(ch);
    StandsAt(text, p, s, 0);
    if ch.escaped { StandsAt(text, p, s, 1); }
    LexesOne(text, p, false, Literal(ch.c), p2, false);
  }

  lemma {:induction false} LexDigits(text: string, p: int, r: int, comma: bool, d: string)
    requires 0 <= p < r && Stands(text, r, d)
    requires Digits(d)
    ensures RepAt(text, p, r, comma) == RepAt(text, p, r + |d|, comma)
    decreases |d|
  {
    if d != "" {
      StandsAt(text, r, d, 0);
      assert [d[0]] + d[1..] == d;
      StandsSplit(text, r, [d[0]], d[1..]);
      LexDigits(text, p, r + 1, comma, d[1..]);
    }
  }

  lemma LexComma(text: string, p: int, r: int)
    requires 0 <= p < r && Stands(text, r, ",")
    ensures RepAt(text, p, r, false) == RepAt(text, p, r + 1, true)
  {
    StandsAt(text, r, ",", 0);
  }

  lemma LexTwoCounts(text: string, p: int, r: int, n: string, m: string, e: int)
    requires 0 <= p < r && Stands(text, r, n) && Stands(text, r + |n|, ",") && Stands(text, r + |n| + 1, m)
    requires Digits(n) && Digits(m)
    requires e == r + |n| + 1 + |m|
    ensures RepAt(text, p, r, false) == RepAt(text, p, e, true)
  {
    LexDigits(text, p, r, false, n);
    LexComma(text, p, r + |n|);
    LexDigits(text, p, r + |n| + 1, true, m);
  }

  /** The text between the braces is walked through to the closing brace. */
  lemma LexCountText(text: string, p: int, r: int, q: Quant, e: int)
    requires q.Exactly? || q.AtLeast? || q.AtMost? || q.Between?
    requires QuantWritten(q) && 0 <= p < r && Stands(text, r, PrintCounts(q)) && e == r + |PrintCounts(q)|
    ensures RepAt(text, p, r, false) == RepAt(text, p, e, !q.Exactly?)
  {
    match q
    case Exactly(n) =>
      LexDigits(text, p, r, false, n);
    case AtLeast(n) =>
      StandsSplit(text, r, n, ",");
      LexTwoCounts(text, p, r, n, "", e);
    case AtMost(m) =>
      StandsSplit(text, r, ",", m);
      LexTwoCounts(text, p, r, "", m, e);
    case Between(n, m) =>
      StandsSplit(text, r, n + ",", m);
      StandsSplit(text, r, n, ",");
      LexTwoCounts(text, p, r, n, m, e);
  }

  lemma LexBraces(text: string, p: int, counts: string, e: int, comma: bool)
    requires 0 <= p && e == p + 1 + |counts| < |text| && text[p] == '{' && text[e] == '}'
    requires Stands(text, p + 1, counts) && counts != "" && (IsDigit(counts[0]) || IsDigit(counts[|counts| - 1]))
    requires RepAt(text, p, p + 1, false) == RepAt(text, p, e, comma)
    ensures LexAt(text, p, false) == Lexed(Rep(counts), e + 1, false)
  {
    StandsAt(text, p + 1, counts, 0);
    StandsAt(text, p + 1, counts, |counts| - 1);
    StandsSlice(text, p + 1, counts);
  }

  lemma CountsStand(text: string, p: int, q: Quant, e: int)
    requires q.Exactly? || q.AtLeast? || q.AtMost? || q.Between?
    requires Stands(text, p, PrintQuant(q)) && e == p + 1 + |PrintCounts(q)|
    ensures Stands(text, p, "{") && Stands(text, p + 1, PrintCounts(q)) && Stands(text, e, "}")
    ensures e + 1 == p + |PrintQuant(q)|
  {
    assert PrintQuant(q) == "{" + PrintCounts(q) + "}";
    StandsSplit(text, p, "{" + PrintCounts(q), "}");
    StandsSplit(text, p, "{", PrintCounts(q));
  }

  lemma CountsDigit(q: Quant)
    requires (q.Exactly? || q.AtLeast? || q.AtMost? || q.Between?) && QuantWritten(q)
    ensures var s := PrintCounts(q); s != "" && (IsDigit(s[0]) || IsDigit(s[|s| - 1]))
  {
  }

  lemma LexCounts(text: string, p: int, q: Quant, p2: int)
    requires q.Exactly? || q.AtLeast? || q.AtMost? || q.Between?
    requires QuantWritten(q) && Stands(text, p, PrintQuant(q)) && p2 == p + |PrintQuant(q)|
    ensures LexAt(text, p, false) == Lexed(Rep(PrintCounts(q)), p2, false)
  {
    var e := p + 1 + |PrintCounts(q)|;
    CountsStand(text, p, q, e);
    CountsDigit(q);
    LexCountText(text, p, p + 1, q, e);
    StandsAt(text, p, "{", 0);
    StandsAt(text, e, "}", 0);
    LexBraces(text, p, PrintCounts(q), e, !q.Exactly?);
  }

  lemma LexQuant(text: string, p: int, q: Quant, p2: int)
    requires QuantWritten(q) && Stands(text, p, PrintQuant(q)) && p2 == p + |PrintQuant(q)|
    ensures Lexes(text, p, false, QuantTokens(q), p2, false)
  {
    match q
    case Once => LexesNone(text, p, false);
    case ZeroOrMore => LexMeta(text, p, '*', Zero, p2);
    case OneOrMore => LexMeta(text, p, '+', One, p2);
    case ZeroOrOne => LexMeta(text, p, '?', OneZero, p2);
    case _ =>
      LexCounts(text, p, q, p2);
      LexesOne(text, p, false, Rep(PrintCounts(q)), p2, false);
  }

  // ----- between brackets -----

  lemma LexSingle(text: string, p: int, ch: Chr)
    requires ItemWritten(false, Single(ch)) || ItemWritten(true, Single(ch))
    requires Stands(text, p, PrintChr(ch)) && p + |PrintChr(ch)| < |text| && text[p + |PrintChr(ch)|] != '-'
    ensures LexAt(text, p, true) == Lexed(Literal(ch.c), p + |PrintChr(ch)|, true)
    ensures text[p] != '-'
  {
    StandsAt(text, p, PrintChr(ch), 0);
    if ch.escaped { StandsAt(text, p, PrintChr(ch), 1); }
  }

  lemma LexRange(text: string, p: int, from: Chr, to: Chr)
    requires ItemWritten(false, Range(from, to)) || ItemWritten(true, Range(from, to))
    requires var q := p + |PrintChr(from)|;
      Stands(text, p, PrintChr(from)) && Stands(text, q, "-") && Stands(text, q + 1, PrintChr(to))
    ensures LexAt(text, p, true) ==
      Lexed(CharRange(from.c, to.c), p + |PrintChr(from)| + 1 + |PrintChr(to)|, true)
    ensures text[p] != '-'
  {
    var q := p + |PrintChr(from)|;
    StandsAt(text, p, PrintChr(from), 0);
    StandsAt(text, q, "-", 0);
    StandsAt(text, q + 1, PrintChr(to), 0);
    if from.escaped { StandsAt(text, p, PrintChr(from), 1); }
    if to.escaped { StandsAt(text, q + 1, PrintChr(to), 1); }
  }

  /** One item, the character after it not being the range separator. */
  lemma LexItem(text: string, p: int, negated: bool, item: Item)
    requires ItemWritten(negated, item) && Stands(text, p, PrintItem(item))
    requires p + |PrintItem(item)| < |text| && text[p + |PrintItem(item)|] != '-'
    ensures LexAt(text, p, true) == Lexed(ItemToken(item), p + |PrintItem(item)|, true)
    ensures text[p] != '-'
  {
    match item
    case Single(ch) =>
      LexSingle(text, p, ch);
    case Range(from, to) =>
      StandsSplit(text, p, PrintChr(from) + "-", PrintChr(to));
      StandsSplit(text, p, PrintChr(from), "-");
      LexRange(text, p, from, to);
  }

  lemma LexBracket(text: string, p: int, c: char, p2: int)
    requires Stands(text, p, [c]) && (c == '[' || c == ']') && p2 == p + 1
    ensures c == '[' ==> Lexes(text, p, false, [CharcOpen], p2, true)
    ensures c == ']' ==> Lexes(text, p, true, [CharcClose], p2, false) && text[p] != '-'
  {
    StandsAt(text, p, [c], 0);
    if c == '[' {
      LexesOne(text, p, false, CharcOpen, p2, true);
    } else {
      LexesOne(text, p, true, CharcClose, p2, false);
    }
  }

  lemma LexHat(text: string, p: int)
    requires Stands(text, p, "^") && p + 1 < |text| && text[p + 1] != '-'
    ensures Lexes(text, p, true, [Literal('^')], p + 1, true)
  {
    StandsAt(text, p, "^", 0);
    LexesOne(text, p, true, Literal('^'), p + 1, true);
  }

  lemma {:induction false} LexItems(text: string, p: int, negated: bool, items: seq<Item>, e: int)
    requires ItemsWritten(negated, items)
    requires Stands(text, p, PrintItems(items)) && e == p + |PrintItems(items)| && Stands(text, e, "]")
    ensures Lexes(text, p, true, ItemTokens(items), e, true) && text[p] != '-'
    decreases |items|
  {
    if items == [] {
      LexBracket(text, e, ']', e + 1);
      LexesNone(text, p, true);
    } else {
      var m := p + |PrintItem(items[0])|;
      StandsSplit(text, p, PrintItem(items[0]), PrintItems(items[1..]));
      LexItems(text, m, negated, items[1..], e);
      LexItem(text, p, negated, items[0]);
      LexesOne(text, p, true, ItemToken(items[0]), m, true);
      LexesConcat(text, p, true, [ItemToken(items[0])], m, true, ItemTokens(items[1..]), e, true);
    }
  }

  lemma SetStands(text: string, p: int, negated: bool, items: seq<Item>, m: int, e: int)
    requires Stands(text, p, PrintElem(Set(negated, items)))
    requires m == p + (if negated then 2 else 1) && e == m + |PrintItems(items)|
    ensures Stands(text, p, "[") && Stands(text, m, PrintItems(items)) && Stands(text, e, "]")
    ensures negated ==> Stands(text, p + 1, "^")
    ensures e + 1 == p + |PrintElem(Set(negated, items))|
  {
    var hat := if negated then "^" else "";
    StandsSplit(text, p, "[" + hat + PrintItems(items), "]");
    StandsSplit(text, p, "[" + hat, PrintItems(items));
    StandsSplit(text, p, "[", hat);
  }

  lemma LexSetOpen(text: string, p: int, negated: bool, hat: seq<Token>, m: int)
    requires m == p + (if negated then 2 else 1) && Stands(text, p, "[") && m < |text| && text[m] != '-'
    requires hat == (if negated then [Literal('^')] else []) && (negated ==> Stands(text, p + 1, "^"))
    ensures Lexes(text, p, false, [CharcOpen] + hat, m, true)
  {
    LexBracket(text, p, '[', p + 1);
    if negated {
      LexHat(text, p + 1);
      LexesConcat(text, p, false, [CharcOpen], p + 1, true, hat, m, true);
    } else {
      assert [CharcOpen] + hat == [CharcOpen];
    }
  }

  lemma LexSetAt(text: string, p: int, negated: bool, items: seq<Item>, m: int, e: int, p2: int)
    requires ItemsWritten(negated, items)
    requires m == p + (if negated then 2 else 1) && e == m + |PrintItems(items)| && p2 == e + 1
    requires Stands(text, p, "[") && Stands(text, m, PrintItems(items)) && Stands(text, e, "]")
    requires negated ==> Stands(text, p + 1, "^")
    ensures Lexes(text, p, false, SetTokens(negated, items), p2, false)
  {
    var hat := if negated then [Literal('^')] else [];
    LexItems(text, m, negated, items, e);
    LexSetOpen(text, p, negated, hat, m);
    LexBracket(text, e, ']', p2);
    LexesThree(text, p, [CharcOpen] + hat, m, true, ItemTokens(items), e, true, [CharcClose], p2);
  }

  lemma LexSet(text: string, p: int, negated: bool, items: seq<Item>, p2: int)
    requires ItemsWritten(negated, items)
    requires Stands(text, p, PrintElem(Set(negated, items))) && p2 == p + |PrintElem(Set(negated, items))|
    ensures Lexes(text, p, false, SetTokens(negated, items), p2, false)
  {
    var m := p + (if negated then 2 else 1);
    var e := m + |PrintItems(items)|;
    SetStands(text, p, negated, items, m, e);
    LexSetAt(text, p, negated, items, m, e, p2);
  }

  // ----- whole trees -----

  lemma GroupStands(text: string, p: int, re: Re, e: int)
    requires Stands(text, p, PrintElem(Group(re))) && e == p + 1 + |PrintRe(re)|
    ensures Stands(text, p, "(") && Stands(text, p + 1, PrintRe(re)) && Stands(text, e, ")")
    ensures e + 1 == p + |PrintElem(Group(re))|
  {
    StandsSplit(text, p, "(" + PrintRe(re), ")");
    StandsSplit(text, p, "(", PrintRe(re));
  }

  lemma {:induction false} LexElem(text: string, p: int, elem: Elem, p2: int)
    requires ElemWritten(elem) && Stands(text, p, PrintElem(elem)) && p2 == p + |PrintElem(elem)|
    ensures Lexes(text, p, false, ElemTokens(elem), p2, false)
    decreases elem
  {
    match elem
    case Group(re) =>
      var e := p + 1 + |PrintRe(re)|;
      GroupStands(text, p, re, e);
      LexMeta(text, p, '(', LParen, p + 1);
      LexRe(text, p + 1, re, e);
      LexMeta(text, e, ')', RParen, p2);
      LexesThree(text, p, [LParen], p + 1, false, ReTokens(re), e, false, [RParen], p2);
    case AnyChar => LexMeta(text, p, '.', AnyTok, p2);
    case LineStart => LexMeta(text, p, '^', Sol, p2);
    case LineEnd => LexMeta(text, p, '$', Eol, p2);
    case Lit(ch) => LexChr(text, p, ch, p2);
    case Set(negated, items) => LexSet(text, p, negated, items, p2);
  }

  lemma LexBasic(text: string, p: int, b: Basic, p2: int)
    requires BasicWritten(b) && Stands(text, p, PrintBasic(b)) && p2 == p + |PrintBasic(b)|
    ensures Lexes(text, p, false, BasicTokens(b), p2, false)
    decreases b
  {
    var m := p + |PrintElem(b.elem)|;
    StandsSplit(text, p, PrintElem(b.elem), PrintQuant(b.quant));
    LexElem(text, p, b.elem, m);
    LexQuant(text, m, b.quant, p2);
    LexesConcat(text, p, false, ElemTokens(b.elem), m, false, QuantTokens(b.quant), p2, false);
  }

  lemma CatStands(text: string, p: int, init: Cat, last: Basic, m: int)
    requires Stands(text, p, PrintCat(Then(init, last))) && m == p + |PrintCat(init)|
    ensures Stands(text, p, PrintCat(init)) && Stands(text, m, PrintBasic(last))
    ensures m + |PrintBasic(last)| == p + |PrintCat(Then(init, last))|
  {
    StandsSplit(text, p, PrintCat(init), PrintBasic(last));
  }

  lemma {:induction false} LexCat(text: string, p: int, c: Cat, p2: int)
    requires CatWritten(c) && Stands(text, p, PrintCat(c)) && p2 == p + |PrintCat(c)|
    ensures Lexes(text, p, false, CatTokens(c), p2, false)
    decreases c
  {
    match c
    case Empty => LexesNone(text, p, false);
    case Then(init, last) =>
      var m := p + |PrintCat(init)|;
      CatStands(text, p, init, last, m);
      LexCat(text, p, init, m);
      LexBasic(text, m, last, p2);
      LexesConcat(text, p, false, CatTokens(init), m, false, BasicTokens(last), p2, false);
  }

  lemma UnionStands(text: string, p: int, l: Re, r: Cat, p2: int) returns (m: int)
    requires Stands(text, p, PrintRe(Union(l, r))) && p2 == p + |PrintRe(Union(l, r))|
    ensures m == p + |PrintRe(l)| && p2 == m + 1 + |PrintCat(r)|
    ensures Stands(text, p, PrintRe(l)) && Stands(text, m, "|") && Stands(text, m + 1, PrintCat(r))
  {
    m := p + |PrintRe(l)|;
    StandsSplit(text, p, PrintRe(l) + "|", PrintCat(r));
    StandsSplit(text, p, PrintRe(l), "|");
  }

  /** The two sides of a bar and the bar. */
  lemma LexUnion(text: string, p: int, l: Re, r: Cat, m: int, p2: int)
    requires Lexes(text, p, false, ReTokens(l), m, false) && Stands(text, m, "|")
    requires Lexes(text, m + 1, false, CatTokens(r), p2, false)
    ensures Lexes(text, p, false, ReTokens(Union(l, r)), p2, false)
  {
    LexMeta(text, m, '|', Alt, m + 1);
    LexesThree(text, p, ReTokens(l), m, false, [Alt], m + 1, false, CatTokens(r), p2);
    assert ReTokens(Union(l, r)) == ReTokens(l) + [Alt] + CatTokens(r);
  }

  lemma {:induction false} LexRe(text: string, p: int, re: Re, p2: int)
    requires ReWritten(re) && Stands(text, p, PrintRe(re)) && p2 == p + |PrintRe(re)|
    ensures Lexes(text, p, false, ReTokens(re), p2, false)
    decreases re
  {
    match re
    case Simple(c) => LexCat(text, p, c, p2);
    case Union(l, r) =>
      var m := UnionStands(text, p, l, r, p2);
      LexRe(text, p, l, m);
      LexCat(text, m + 1, r, p2);
      LexUnion(text, p, l, r, m, p2);
  }

  /** A sentence of the grammar lexes to its own tokens and the end, with no error. */
  lemma SentenceLexes(re: Re)
    requires ReWritten(re)
    ensures LexAll(PrintRe(re), 0, false) == ReTokens(re) + [End]
  {
    var text := PrintRe(re);
    assert forall k :: 0 <= k < |text| ==> Same(text, 0, text, k);
    LexRe(text, 0, re, |text|);
    LexesAll(text, 0, false, ReTokens(re), |text|, false);
  }
}
