/** librxvm/string_builder.c: decimal printing and the growing buffer; and that the counts of a
    repetition written with them are read back by parse_rep. */
module StringBuilder {
  import opened Regex
  import opened Lexer
  import opened Context
  import Compilation

  function Digit(d: nat): char
    requires d < 10
  {
    (d + '0' as int) as char
  }

  /** The decimal digits of n. */
  function Decimal(n: nat): string {
    if n < 10 then [Digit(n)] else Decimal(n / 10) + [Digit(n % 10)]
  }

  /** my_utoa: the digits and a terminator, or -1 if they do not fit. For zero in a size of one it
      writes two characters all the same, so the buffer must then have room for them. */
  method Utoa(val: nat, buf: array<char>, size: int) returns (chars: int)
    requires size <= buf.Length && (val == 0 && size == 1 ==> buf.Length > 1)
    modifies buf
    ensures chars == if |Decimal(val)| + 1 > size && (val != 0 || size != 1) then -1 else |Decimal(val)|
    ensures chars >= 0 ==> buf[..chars] == Decimal(val) && buf[chars] == '\0'
    ensures chars == -1 ==> buf[..] == old(buf[..])
  {
    chars := 0;
    var i := val;
    while i > 0
      invariant i > 0 ==> chars + |Decimal(i)| == |Decimal(val)|
      invariant i == 0 && val > 0 ==> chars == |Decimal(val)|
      invariant 0 <= i <= val && 0 <= chars && (val == 0 ==> chars == 0)
    {
      i := i / 10;
      chars := chars + 1;
    }
    if chars + 1 > size {
      return -1;
    }
    if chars == 0 {
      buf[0] := '0';
      buf[1] := '\0';
      assert buf[..1] == ['0'];
      return 1;
    }
    var pos := chars;
    buf[pos] := '\0';
    pos := pos - 1;
    var left := val;
    ghost var text := Decimal(val);
    assert |text| == chars && text[..chars] == text;
    while left > 0
      invariant 0 <= left && -1 <= pos < chars && (left == 0 <==> pos == -1)
      invariant left > 0 ==> Decimal(left) == text[..pos + 1]
      invariant forall k :: pos < k < chars ==> buf[k] == text[k]
      invariant buf[chars] == '\0' && |text| == chars < buf.Length
      decreases left
    {
      var rem := left % 10;
      assert text[..pos + 1][pos] == text[pos];
      buf[pos] := (rem + '0' as int) as char;
      pos := pos - 1;
      assert left >= 10 ==> Decimal(left / 10) == Decimal(left)[..|Decimal(left)| - 1];
      left := left / 10;
    }
    assert buf[..chars] == text;
  }

  // ----- reading back -----

  lemma {:induction false} DecimalNumber(n: nat)
    ensures IsNumber(Decimal(n)) && Number(Decimal(n)) == n
  {
    var d := Decimal(n);
    if n >= 10 {
      DecimalNumber(n / 10);
      assert d[..|d| - 1] == Decimal(n / 10);
    } else {
      assert d[..0] == "";
    }
  }

  /** Counts printed in decimal are read back: {n}, {n,}, {,m} and {n,m}. */
  lemma CountsReadBack(n: nat, m: nat)
    ensures var a, b := Decimal(n), Decimal(m);
      && RepText(a) && RepCounts(a) == (n, NO_FIELD)
      && RepText(a + ",") && RepCounts(a + ",") == (n, FIELD_EMPTY)
      && RepText("," + b) && RepCounts("," + b) == (FIELD_EMPTY, m)
      && RepText(a + "," + b) && RepCounts(a + "," + b) == (n, m)
  {
    DecimalNumber(n);
    DecimalNumber(m);
    Compilation.WrittenCounts(Exactly(Decimal(n)));
    Compilation.WrittenCounts(AtLeast(Decimal(n)));
    Compilation.WrittenCounts(AtMost(Decimal(m)));
    Compilation.WrittenCounts(Between(Decimal(n), Decimal(m)));
  }

  // ----- the buffer -----

  /** strb_t. The space is the length of buf. */
  class Builder {
    var buf: array<char>
    var size: int
    const blockSize: int

    ghost predicate Valid()
      reads this
    {
      0 <= size <= buf.Length && blockSize > 0
    }

    ghost function Text(): string
      requires Valid()
      reads this, buf
    {
      buf[..size]
    }

    /** strb_init; a block size of 0 stands for the default of 10. */
    constructor (blockSize: nat)
      ensures Valid() && fresh(buf) && Text() == ""
    {
      this.blockSize := if blockSize != 0 then blockSize else 10;
      buf := new char[if blockSize != 0 then blockSize else 10](_ => '\0');
      size := 0;
    }

    /** enlarge_buf: realloc by a number of blocks. */
    method Enlarge(blocks: int)
      requires Valid() && blocks >= 0
      modifies `buf
      ensures Valid() && fresh(buf) && Text() == old(Text())
      ensures buf.Length == old(buf.Length) + blockSize * blocks
    {
      var b := new char[buf.Length + blockSize * blocks](_ => '\0');
      forall k | 0 <= k < buf.Length { b[k] := buf[k]; }
      ghost var was := buf[..size];
      buf := b;
      assert buf[..size] == was;
    }

    /** strb_addc. */
    method AddChar(c: char)
      requires Valid()
      modifies this, buf
      ensures Valid() && Text() == old(Text()) + [c] && (buf == old(buf) || fresh(buf))
    {
      if size + 1 > buf.Length {
        Enlarge(1);
      }
      buf[size] := c;
      size := size + 1;
    }

    /** strb_adds: at most n characters, up to the terminator. The blocks added are enough. */
    method AddString(s: string, n: nat)
      requires Valid() && NulFree(s)
      modifies this, buf
      ensures Valid() && Text() == old(Text()) + s[..Min(n, |s|)] && (buf == old(buf) || fresh(buf))
    {
      ghost var was := Text();
      if size + n > buf.Length {
        var blocks := (size + n - buf.Length) / blockSize + 1;
        EnoughBlocks(size + n - buf.Length, blockSize);
        Enlarge(blocks);
      }
      ghost var start := size;
      var i := 0;
      while i < n && CharAt(s, i) != '\0'
        invariant 0 <= i <= Min(n, |s|) && size == start + i && Valid() && start + n <= buf.Length
        invariant buf == old(buf) || fresh(buf)
        invariant Text() == was + s[..i]
      {
        buf[size] := s[i];
        size := size + 1;
        i := i + 1;
      }
    }

    /** strb_addu. */
    method AddNumber(i: nat)
      requires Valid() && |Decimal(i)| < 20
      modifies this, buf
      ensures Valid() && Text() == old(Text()) + Decimal(i)
    {
      var num := new char[20](_ => '\0');
      var chars := Utoa(i, num, 20);
      DecimalNumber(i);
      AddString(num[..chars], chars);
      assert Decimal(i)[..chars] == Decimal(i);
    }
  }

  lemma EnoughBlocks(missing: nat, block: nat)
    requires block > 0
    ensures block * (missing / block + 1) >= missing
  {
    assert missing == block * (missing / block) + missing % block;
  }
}
