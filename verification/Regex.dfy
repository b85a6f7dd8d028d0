/** The expression language of tests/grammar.txt as concrete syntax trees, and what an
    expression matches. Nothing here refers to compilation: this is the reference meaning. */
module Regex {

  /** A string handed to the matcher: anything without the terminator inside. */
  predicate NulFree(s: string) {
    forall k :: 0 <= k < |s| ==> s[k] != '\0'
  }

  /** The character at p, or the terminator behind the last one. */
  function CharAt(s: string, p: int): char
    requires 0 <= p <= |s|
  {
    if p < |s| then s[p] else '\0'
  }

  // ----- trees, one datatype per nonterminal -----

  /** A character as written, with or without the backslash. */
  datatype Chr = Chr(c: char, escaped: bool)

  datatype Item = Single(ch: Chr) | Range(from: Chr, to: Chr)

  datatype Quant =
    | Once
    | ZeroOrMore
    | OneOrMore
    | ZeroOrOne
    | Exactly(n: string)
    | AtLeast(n: string)
    | AtMost(m: string)
    | Between(n: string, m: string)

  datatype Elem =
    | Group(re: Re)
    | AnyChar
    | LineStart
    | LineEnd
    | Lit(ch: Chr)
    | Set(negated: bool, items: seq<Item>)

  datatype Basic = Basic(elem: Elem, quant: Quant)

  /** Empty is more than the grammar asks for: the compiler also takes `a|` and `|a`. */
  datatype Cat = Empty | Then(init: Cat, last: Basic)

  datatype Re = Simple(body: Cat) | Union(left: Re, right: Cat)

  /** A character written without a backslash. */
  function Letter(c: char, q: Quant): Basic { Basic(Lit(Chr(c, false)), q) }

  datatype Option<T> = None | Some(value: T)

  // ----- numbers -----

  predicate IsDigit(c: char) { '0' <= c <= '9' }

  predicate Digits(d: string) {
    forall k :: 0 <= k < |d| ==> IsDigit(d[k])
  }

  predicate IsNumber(d: string) { |d| > 0 && Digits(d) }

  /** The value of a digit string. */
  function Number(d: string): nat
    requires Digits(d)
  {
    if d == "" then 0
    else
      assert IsDigit(d[|d| - 1]);
      10 * Number(d[..|d| - 1]) + (d[|d| - 1] as int - '0' as int)
  }

  predicate AllZero(d: string) { forall k :: 0 <= k < |d| ==> d[k] == '0' }

  lemma {:induction false} ZeroNumber(d: string)
    requires Digits(d)
    ensures Number(d) == 0 <==> AllZero(d)
    decreases |d|
  {
    if d != "" {
      assert IsDigit(d[|d| - 1]);
      ZeroNumber(d[..|d| - 1]);
      assert AllZero(d) <==> AllZero(d[..|d| - 1]) && d[|d| - 1] == '0';
    }
  }

  predicate QuantWritten(q: Quant) {
    match q
    case Exactly(n) => IsNumber(n)
    case AtLeast(n) => IsNumber(n)
    case AtMost(m) => IsNumber(m)
    case Between(n, m) => IsNumber(n) && IsNumber(m)
    case _ => true
  }

  function Min(a: int, b: int): int { if a <= b then a else b }

  function Max(a: int, b: int): int { if a <= b then b else a }

  /** How many repetitions a quantifier stands for. The bounds of {n,m} may be swapped. */
  predicate Allows(q: Quant, k: nat)
    requires QuantWritten(q)
  {
    match q
    case Once => k == 1
    case ZeroOrMore => true
    case OneOrMore => 1 <= k
    case ZeroOrOne => k <= 1
    case Exactly(n) => k == Number(n)
    case AtLeast(n) => Number(n) <= k
    case AtMost(m) => k <= Number(m)
    case Between(n, m) => Min(Number(n), Number(m)) <= k <= Max(Number(n), Number(m))
  }

  /** The counts the compiler refuses: those that allow no repetition at all. */
  predicate OnlyZero(q: Quant)
    requires QuantWritten(q)
  {
    match q
    case Exactly(n) => Number(n) == 0
    case AtMost(m) => Number(m) == 0
    case Between(n, m) => Number(n) == 0 && Number(m) == 0
    case _ => false
  }

  lemma OnlyZeroMeans(q: Quant)
    requires QuantWritten(q)
    ensures OnlyZero(q) <==> forall k: nat :: Allows(q, k) <==> k == 0
  {
    if !OnlyZero(q) {
      var k: nat := match q
        case AtLeast(n) => Number(n) + 1
        case Exactly(n) => Number(n)
        case AtMost(m) => Number(m)
        case Between(n, m) => Max(Number(n), Number(m))
        case _ => 1;
      assert k != 0 && Allows(q, k);
    }
  }

  // ----- which trees are sentences -----

  predicate Whitespace(c: char) { 7 <= c as int <= 13 }

  predicate Printable(c: char) { ' ' <= c <= '~' || Whitespace(c) }

  predicate Meta(c: char) {
    c in {'[', ']', '(', ')', '{', '}', '+', '*', '.', '?', '|', '^', '$', '\\'}
  }

  predicate ChrWritten(ch: Chr) {
    '\0' < ch.c < '\U{7f}' && (ch.escaped || (Printable(ch.c) && !Meta(ch.c)))
  }

  /** Inside brackets only ']', '\' and '-' need the backslash. */
  predicate SetChrWritten(ch: Chr) {
    '\0' < ch.c < '\U{7f}' && (ch.escaped || (Printable(ch.c) && ch.c !in {']', '\\', '-'}))
  }

  predicate RangeEndWritten(ch: Chr) {
    Printable(ch.c) && (ch.escaped || ch.c !in {'[', ']', '\\'})
  }

  /** A '^' standing alone negates the set wherever it is, so a plain set cannot hold one. */
  predicate ItemWritten(negated: bool, item: Item) {
    match item
    case Single(ch) => SetChrWritten(ch) && (ch.c == '^' ==> negated)
    case Range(from, to) => SetChrWritten(from) && RangeEndWritten(to)
  }

  predicate ItemsWritten(negated: bool, items: seq<Item>) {
    forall k :: 0 <= k < |items| ==> ItemWritten(negated, items[k])
  }

  predicate ElemWritten(e: Elem) {
    match e
    case Group(re) => re != Simple(Empty) && ReWritten(re)
    case Lit(ch) => ChrWritten(ch)
    case Set(negated, items) => |items| > 0 && ItemsWritten(negated, items)
    case _ => true
  }

  predicate BasicWritten(b: Basic) { ElemWritten(b.elem) && QuantWritten(b.quant) }

  predicate CatWritten(c: Cat) { c.Then? ==> CatWritten(c.init) && BasicWritten(c.last) }

  predicate ReWritten(re: Re) {
    match re
    case Simple(c) => CatWritten(c)
    case Union(l, r) => ReWritten(l) && CatWritten(r)
  }

  // ----- what a sentence matches -----

  /** The text being matched and the two flags that change what a position matches. */
  datatype Env = Env(text: string, icase: bool, multiline: bool)

  /** The tolower macro of vm.h: it shifts every character up to 'Z', letters or not. */
  function Fold(c: char): int {
    if c as int - 'A' as int <= 25 then c as int + 32 else c as int
  }

  predicate CharEq(icase: bool, a: char, b: char) {
    if icase then Fold(a) == Fold(b) else a == b
  }

  /** Which characters are alike: with case none but the same; without it those that are 32 apart
      on the two sides of 'Z', letters or not. */
  lemma CharEqMeans(a: char, b: char)
    ensures CharEq(false, a, b) <==> a == b
    ensures CharEq(true, a, b) <==>
      a == b || (a <= 'Z' < b && b as int == a as int + 32) || (b <= 'Z' < a && a as int == b as int + 32)
  {
  }

  predicate Upper(c: char) { 'A' <= c <= 'Z' }

  predicate Lower(c: char) { 'a' <= c <= 'z' }

  /** Each letter is like itself in the other case and like no other letter. */
  lemma LettersAlike(a: char, b: char)
    requires Upper(a) && (Upper(b) || Lower(b))
    ensures CharEq(true, a, b) <==> (if Upper(b) then b == a else b as int - 'a' as int == a as int - 'A' as int)
    ensures CharEq(true, b, a) <==> CharEq(true, a, b)
  {
  }

  /** The pattern, taken literally, stands in the text at h. */
  predicate Occurs(icase: bool, pattern: string, text: string, h: int) {
    && 0 <= h && h + |pattern| <= |text|
    && forall k :: 0 <= k < |pattern| ==> CharEq(icase, text[h + k], pattern[k])
  }

  predicate AtStart(env: Env, p: int) {
    p == 0 || (0 < p <= |env.text| && env.multiline && env.text[p - 1] == '\n')
  }

  predicate AtEnd(env: Env, p: int) {
    p == |env.text| || (0 <= p < |env.text| && env.multiline && env.text[p] == '\n')
  }

  ghost predicate InItem(icase: bool, item: Item, c: char) {
    match item
    case Single(ch) => CharEq(icase, ch.c, c)
    case Range(from, to) =>
      exists d: char :: (from.c <= d <= to.c || to.c <= d <= from.c) && CharEq(icase, d, c)
  }

  ghost predicate InItems(icase: bool, items: seq<Item>, c: char) {
    exists k :: 0 <= k < |items| && InItem(icase, items[k], c)
  }

  /** One character: position i holds it and the match ends just after. */
  ghost predicate MatchChar(e: Elem, env: Env, i: int)
    requires e.AnyChar? || e.Lit? || e.Set?
  {
    && 0 <= i < |env.text|
    && match e
       case AnyChar => env.text[i] != '\n'
       case Lit(ch) => CharEq(env.icase, env.text[i], ch.c)
       case Set(negated, items) => negated != InItems(env.icase, items, env.text[i])
  }

  ghost predicate MatchElem(e: Elem, env: Env, i: int, j: int)
    requires ElemWritten(e)
    decreases e, 0, 0
  {
    match e
    case Group(re) => MatchRe(re, env, i, j)
    case LineStart => AtStart(env, i) && j == i
    case LineEnd => AtEnd(env, i) && j == i
    case _ => MatchChar(e, env, i) && j == i + 1
  }

  /** Exactly k matches of e, one after the other; each of them may be empty. */
  ghost predicate Iterate(e: Elem, env: Env, k: nat, i: int, j: int)
    requires ElemWritten(e)
    decreases e, 1, k
  {
    if k == 0 then i == j
    else exists m :: MatchElem(e, env, i, m) && Iterate(e, env, k - 1, m, j)
  }

  ghost predicate MatchBasic(b: Basic, env: Env, i: int, j: int)
    requires BasicWritten(b)
    decreases b, 0, 0
  {
    exists k: nat :: Allows(b.quant, k) && Iterate(b.elem, env, k, i, j)
  }

  ghost predicate MatchCat(c: Cat, env: Env, i: int, j: int)
    requires CatWritten(c)
    decreases c, 0, 0
  {
    match c
    case Empty => i == j
    case Then(init, last) => exists m :: MatchCat(init, env, i, m) && MatchBasic(last, env, m, j)
  }

  /** re matches the stretch [i, j) of the text, its anchors reading the whole text. */
  ghost predicate MatchRe(re: Re, env: Env, i: int, j: int)
    requires ReWritten(re)
    decreases re, 0, 0
  {
    match re
    case Simple(c) => MatchCat(c, env, i, j)
    case Union(l, r) => MatchRe(l, env, i, j) || MatchCat(r, env, i, j)
  }
}
