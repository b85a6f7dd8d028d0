/** librxvm/bmh.c: Boyer-Moore-Horspool search of a file through a sliding buffer. The file is a
    string and a read offset; fread and ftell are what they do to these two. */
module Bmh {
  import opened Regex

  const BUFSIZE := 8192
  const WS_LOW := 7
  /** The table has a slot for each character from WS_LOW up to, but without, '~'. */
  const ASIZE := '~' as int - WS_LOW
  /** (char) EOF. */
  const EOF_CHAR := '\U{ff}'
  const UINT_MAX := 0xFFFF_FFFF

  predicate InTable(c: char) { Printable(c) && c != '~' }

  /** The files and patterns the search is made for. */
  predicate Searchable(file: string) {
    forall k :: 0 <= k < |file| ==> file[k] != EOF_CHAR && file[k] != '~'
  }

  /** The last character is never looked up. */
  predicate PatternOk(pattern: string) {
    0 < |pattern| <= BUFSIZE && forall k :: 0 <= k < |pattern| - 1 ==> InTable(pattern[k])
  }

  /** A character that no file ends an occurrence with. */
  predicate NeverThere(c: char) { c == '~' || c == EOF_CHAR }

  ghost predicate NoneIn(icase: bool, pattern: string, file: string, lo: int, hi: int) {
    forall h :: lo <= h < hi ==> !Occurs(icase, pattern, file, h)
  }

  /** How far the pattern may move when a stands under its last place: up to the last of its
      first n places where a stands in it. */
  function Shift(pattern: string, a: char, n: nat): (s: int)
    requires n < |pattern|
    ensures 1 <= s <= |pattern|
    ensures forall k :: 0 <= k < n && pattern[k] == a ==> s <= |pattern| - 1 - k
  {
    if n == 0 then |pattern|
    else if pattern[n - 1] == a then |pattern| - n
    else Shift(pattern, a, n - 1)
  }

  /** By how much the pattern moves when a stands under its last place. */
  function Amount(pattern: string, a: char): (s: int)
    requires pattern != ""
    ensures 1 <= s <= |pattern|
  {
    if Printable(a) then Shift(pattern, a, |pattern| - 1) else |pattern|
  }

  // ----- the search, and when it finds the first occurrence -----

  /** The search with the pattern at h: where it ends up, or -1. */
  function Find(icase: bool, pattern: string, file: string, h: int): (r: int)
    requires pattern != "" && 0 <= h
    ensures r == -1 || (h <= r && Occurs(icase, pattern, file, r))
    decreases |file| - h
  {
    if h + |pattern| > |file| then -1
    else if Occurs(icase, pattern, file, h) then h
    else Find(icase, pattern, file, h + Amount(pattern, file[h + |pattern| - 1]))
  }

  lemma FindOn(icase: bool, pattern: string, file: string, h: int, amount: int)
    requires pattern != "" && 0 <= h && h + |pattern| <= |file| && !Occurs(icase, pattern, file, h)
    requires amount == Amount(pattern, file[h + |pattern| - 1])
    ensures Find(icase, pattern, file, h) == Find(icase, pattern, file, h + amount)
  {
  }

  /** What is found is the first occurrence from h on, and -1 means there is none. */
  ghost predicate FindsFirst(icase: bool, pattern: string, file: string, h: int)
    requires pattern != "" && 0 <= h
  {
    var r := Find(icase, pattern, file, h);
    NoneIn(icase, pattern, file, h, if r >= 0 then r else |file|)
  }

  /** No character that passes for one of the pattern, the last place aside, moves the pattern
      farther than to that place. */
  ghost predicate MovesSafe(icase: bool, pattern: string)
    requires pattern != ""
  {
    forall k, c :: 0 <= k < |pattern| - 1 && CharEq(icase, c, pattern[k]) ==> Amount(pattern, c) <= |pattern| - 1 - k
  }

  /** If case matters no character does. */
  lemma CaseMovesSafe(pattern: string)
    requires PatternOk(pattern)
    ensures MovesSafe(false, pattern)
  {
    forall k | 0 <= k < |pattern| - 1 ensures InTable(pattern[k]) { }
  }

  lemma OccursAt(icase: bool, pattern: string, file: string, h: int, k: int)
    requires 0 <= k < |pattern| && Occurs(icase, pattern, file, h)
    ensures h + k < |file| && CharEq(icase, file[h + k], pattern[k])
  {
  }

  /** Moving on by the table's amount passes no occurrence. */
  lemma ShiftSafe(icase: bool, pattern: string, file: string, h: int, amount: int)
    requires pattern != "" && MovesSafe(icase, pattern) && 0 <= h && h + |pattern| <= |file|
    requires amount == Amount(pattern, file[h + |pattern| - 1]) && !Occurs(icase, pattern, file, h)
    ensures NoneIn(icase, pattern, file, h, h + amount)
  {
    forall g | h < g < h + amount ensures !Occurs(icase, pattern, file, g) {
      if Occurs(icase, pattern, file, g) {
        OccursAt(icase, pattern, file, g, h + |pattern| - 1 - g);
      }
    }
  }

  lemma {:induction false} SafeFindsFirst(icase: bool, pattern: string, file: string, h: int)
    requires pattern != "" && MovesSafe(icase, pattern) && 0 <= h
    ensures FindsFirst(icase, pattern, file, h)
    decreases |file| - h
  {
    if h + |pattern| <= |file| && !Occurs(icase, pattern, file, h) {
      var amount := Amount(pattern, file[h + |pattern| - 1]);
      ShiftSafe(icase, pattern, file, h, amount);
      SafeFindsFirst(icase, pattern, file, h + amount);
    }
  }

  lemma FirstFound(icase: bool, pattern: string, file: string, h: int, r: int)
    requires PatternOk(pattern) && 0 <= h && r == Find(icase, pattern, file, h)
    ensures r == -1 || (h <= r && Occurs(icase, pattern, file, r))
    ensures !icase || MovesSafe(icase, pattern) ==> NoneIn(icase, pattern, file, h, if r >= 0 then r else |file|)
  {
    if !icase { CaseMovesSafe(pattern); }
    if MovesSafe(icase, pattern) { SafeFindsFirst(icase, pattern, file, h); }
  }

  lemma FoldInTable(icase: bool, c: char, a: char)
    requires CharEq(icase, c, a) && InTable(a)
    ensures InTable(c) && c != EOF_CHAR
  {
  }

  /** A file for a character c that moves the pattern past its place k: some characters that do
      not start the pattern, then the pattern with c in place k. */
  function Passed(icase: bool, pattern: string, k: int, c: char): string
    requires 0 <= k < |pattern|
  {
    var x := if CharEq(icase, 'a', pattern[0]) then 'b' else 'a';
    seq(|pattern| - 1 - k, _ => x) + pattern[k := c]
  }

  lemma PassedFile(icase: bool, pattern: string, k: int, c: char, file: string)
    requires PatternOk(pattern) && 0 <= k < |pattern| - 1 && CharEq(icase, c, pattern[k])
    requires !NeverThere(pattern[|pattern| - 1]) && file == Passed(icase, pattern, k, c)
    ensures Searchable(file) && |file| == |pattern| - 1 - k + |pattern|
    ensures file[|pattern| - 1] == c && !Occurs(icase, pattern, file, 0)
    ensures Occurs(icase, pattern, file, |pattern| - 1 - k)
  {
    var d := |pattern| - 1 - k;
    FoldInTable(icase, c, pattern[k]);
    forall j | 0 <= j < |file| ensures file[j] != EOF_CHAR && file[j] != '~' {
      if j >= d { assert file[j] == pattern[k := c][j - d]; }
    }
    forall j | 0 <= j < |pattern| ensures CharEq(icase, file[d + j], pattern[j]) {
      assert file[d + j] == pattern[k := c][j];
    }
    assert !CharEq(icase, file[0 + 0], pattern[0]);
  }

  lemma PassedMissed(icase: bool, pattern: string, k: int, c: char, file: string)
    requires PatternOk(pattern) && 0 <= k < |pattern| - 1 && CharEq(icase, c, pattern[k])
    requires !NeverThere(pattern[|pattern| - 1])
    requires Amount(pattern, c) > |pattern| - 1 - k && file == Passed(icase, pattern, k, c)
    ensures Searchable(file) && Find(icase, pattern, file, 0) == -1
    ensures Occurs(icase, pattern, file, |pattern| - 1 - k) && !FindsFirst(icase, pattern, file, 0)
  {
    PassedFile(icase, pattern, k, c, file);
    assert Find(icase, pattern, file, Amount(pattern, c)) == -1;
  }

  lemma NeverOccurs(icase: bool, pattern: string, file: string, h: int)
    requires PatternOk(pattern) && Searchable(file) && NeverThere(pattern[|pattern| - 1])
    ensures !Occurs(icase, pattern, file, h)
  {
    if Occurs(icase, pattern, file, h) { OccursAt(icase, pattern, file, h, |pattern| - 1); }
  }

  /** The search finds the first occurrence from every place of every file, exactly when the
      pattern has no character as above (or occurs in no such file). */
  lemma FindExact(icase: bool, pattern: string)
    requires PatternOk(pattern)
    ensures (forall file, h | Searchable(file) && 0 <= h <= |file| :: FindsFirst(icase, pattern, file, h)) <==>
            MovesSafe(icase, pattern) || NeverThere(pattern[|pattern| - 1])
  {
    if NeverThere(pattern[|pattern| - 1]) {
      forall file, h | Searchable(file) && 0 <= h <= |file| ensures FindsFirst(icase, pattern, file, h) {
        forall g ensures !Occurs(icase, pattern, file, g) { NeverOccurs(icase, pattern, file, g); }
      }
    } else if MovesSafe(icase, pattern) {
      forall file, h | Searchable(file) && 0 <= h <= |file| ensures FindsFirst(icase, pattern, file, h) {
        SafeFindsFirst(icase, pattern, file, h);
      }
    } else {
      var k, c :| 0 <= k < |pattern| - 1 && CharEq(icase, c, pattern[k]) && Amount(pattern, c) > |pattern| - 1 - k;
      var file := Passed(icase, pattern, k, c);
      PassedMissed(icase, pattern, k, c, file);
    }
  }

  /** With ICASE it misses ab in xAb. */
  lemma IcaseMisses()
    ensures Occurs(true, "ab", "xAb", 1) && Find(true, "ab", "xAb", 0) == -1
  {
    assert Shift("ab", 'A', 1) == 2 && Amount("ab", 'A') == 2;
    assert "xAb"[0 + 2 - 1] == 'A' && !CharEq(true, "xAb"[0 + 0], "ab"[0]);
    assert Find(true, "ab", "xAb", 2) == -1;
  }

  class Searcher {
    const file: string
    const pattern: string
    var fpos: int
    var buf: array<char>
    var badchar: array<int>
    var plen: int
    var pos: int
    var end: int
    var endix: int
    var pendix: int

    /** The buffer holds the end of what has been read, and EOF after the end of the file. */
    ghost predicate Window()
      reads this, buf
    {
      && buf.Length == BUFSIZE && 0 <= end <= BUFSIZE && end <= fpos <= |file|
      && endix == (if end == 0 then UINT_MAX else end - 1)
      && (forall k :: 0 <= k < end ==> buf[k] == file[fpos - end + k])
      && (forall k :: end <= k < BUFSIZE ==> buf[k] == EOF_CHAR)
      && (end < BUFSIZE ==> fpos == |file|)
    }

    ghost predicate Valid()
      reads this, buf, badchar
    {
      && Window() && Searchable(file) && PatternOk(pattern)
      && plen == |pattern| && pendix == plen - 1
      && badchar.Length == ASIZE
      && (forall j :: 0 <= j < ASIZE ==> badchar[j] == Shift(pattern, (j + WS_LOW) as char, plen - 1))
    }

    /** The place in the file of the character the buffer position stands for. */
    ghost function Offset(): int
      reads this
    {
      fpos - end + pos
    }

    /** fill: the last `backup` characters move to the front, the rest is read from the file. */
    method Fill(backup: int)
      requires buf.Length == BUFSIZE && 0 <= backup <= end <= BUFSIZE && backup < BUFSIZE && backup <= fpos <= |file|
      requires forall k :: end - backup <= k < end ==> buf[k] == file[fpos - end + k]
      modifies `fpos, `end, `endix, buf
      ensures Window() && fpos - end == old(fpos) - backup
    {
      ghost var from := fpos - backup;
      Memmove(end - backup, backup, from);
      var rsize := Fread(backup, BUFSIZE - backup, from);
      assert forall k :: 0 <= k < backup + rsize ==> buf[k] == file[from + k];
      if rsize < BUFSIZE - backup {
        Memset(backup + rsize, BUFSIZE - (backup + rsize));
        end := backup + rsize;
      } else {
        end := BUFSIZE;
      }
      endix := if end == 0 then UINT_MAX else end - 1;
    }

    /** memmove of n characters, those of the file from `at` on, to the front of the buffer. */
    method Memmove(from: int, n: int, ghost at: int)
      requires 0 <= n && 0 <= from && from + n <= buf.Length && 0 <= at && at + n <= |file|
      requires forall k :: from <= k < from + n ==> buf[k] == file[at - from + k]
      modifies buf
      ensures forall k :: 0 <= k < n ==> buf[k] == file[at + k]
    {
      forall k | 0 <= k < n { buf[k] := buf[from + k]; }
    }

    /** fread into the buffer: all that was asked for, or what is left of the file. */
    method Fread(at: int, n: int, ghost from: int) returns (rsize: int)
      requires 0 <= n && 0 <= at && at + n <= buf.Length && 0 <= fpos <= |file| && from + at == fpos
      modifies `fpos, buf
      ensures rsize == Min(n, |file| - old(fpos)) && fpos == old(fpos) + rsize
      ensures forall k :: at <= k < at + rsize ==> buf[k] == file[from + k]
      ensures forall k :: 0 <= k < buf.Length && !(at <= k < at + rsize) ==> buf[k] == old(buf[k])
    {
      rsize := Min(n, |file| - fpos);
      forall k | at <= k < at + rsize { buf[k] := file[fpos + (k - at)]; }
      fpos := fpos + rsize;
    }

    method Memset(at: int, n: int)
      requires 0 <= n && 0 <= at && at + n <= buf.Length
      modifies buf
      ensures forall k :: 0 <= k < buf.Length ==>
                buf[k] == if at <= k < at + n then EOF_CHAR else old(buf[k])
    {
      forall k | at <= k < at + n { buf[k] := EOF_CHAR; }
    }

    /** skip: on by num characters in the file, whether or not the buffer has to be filled again. */
    method Skip(num: int) returns (c: char)
      requires Valid() && 0 <= num <= plen && 0 <= pos && (pos < end || (pos == 0 && num == pendix))
      requires pos + num >= pendix
      modifies `fpos, `end, `endix, `pos, buf
      ensures Valid() && Offset() == old(Offset()) + num && pendix <= pos < BUFSIZE
      ensures c == buf[pos]
      ensures c == if Offset() < |file| then file[Offset()] else EOF_CHAR
      ensures c != EOF_CHAR <==> pos < end
    {
      var total := pos + num;
      if total > endix {
        Fill(plen - (total - endix));
        pos := pendix;
      } else {
        pos := pos + num;
      }
      c := buf[pos];
    }

    /** bmh_reset: the buffer is filled from where the file is. */
    method Reset()
      requires buf.Length == BUFSIZE && 0 <= fpos <= |file| && 0 <= end <= BUFSIZE
      modifies `pos, `pendix, `fpos, `end, `endix, buf
      ensures Window() && pos == 0 && pendix == plen - 1 && Offset() == old(fpos)
    {
      pos := 0;
      pendix := plen - 1;
      Fill(0);
    }

    /** bmh_init. */
    constructor (file: string, fpos: int, pattern: string)
      requires Searchable(file) && PatternOk(pattern) && 0 <= fpos <= |file|
      ensures this.file == file && this.pattern == pattern
      ensures Valid() && pos == 0 && Offset() == fpos
    {
      this.file, this.fpos, this.pattern, this.plen := file, fpos, pattern, |pattern|;
      pos, end, endix, pendix := 0, 0, UINT_MAX, 0;
      buf := new char[BUFSIZE](_ => EOF_CHAR);
      badchar := new int[ASIZE](_ => 0);
      new;
      var length := plen;
      var i := 0;
      while i < ASIZE
        invariant 0 <= i <= ASIZE
        invariant forall j :: 0 <= j < i ==> badchar[j] == length
        modifies badchar
      {
        badchar[i] := length;
        i := i + 1;
      }
      i := 0;
      while i < length - 1
        invariant 0 <= i <= length - 1
        invariant forall j :: 0 <= j < ASIZE ==> badchar[j] == Shift(pattern, (j + WS_LOW) as char, i)
        modifies badchar
      {
        assert InTable(pattern[i]);
        badchar[pattern[i] as int - WS_LOW] := length - i - 1;
        i := i + 1;
      }
      Reset();
    }

    /** The do-while loop that compares the pattern with the window from right to left. */
    method Compare(icase: bool) returns (same: bool)
      requires Valid() && pendix <= pos < end
      ensures same <==> Occurs(icase, pattern, file, Offset() - pendix)
    {
      var i := pendix;
      while true
        invariant 0 <= i <= pendix
        invariant forall k :: i < k < plen ==> CharEq(icase, file[Offset() - pendix + k], pattern[k])
        decreases i
      {
        assert buf[pos - pendix + i] == file[Offset() - pendix + i];
        if !CharEq(icase, buf[pos - pendix + i], pattern[i]) {
          return false;
        }
        if i == 0 {
          return true;
        }
        i := i - 1;
      }
    }

    /** The shift the table gives for the character under the last place of the pattern. */
    method TableShift(icase: bool, c: char, ghost h: int, ghost goal: int) returns (skiplen: int, ghost h2: int)
      requires Valid() && 0 <= h && h + plen <= |file| && c == file[h + plen - 1]
      requires !Occurs(icase, pattern, file, h) && Find(icase, pattern, file, h) == goal
      ensures 1 <= skiplen <= plen && h2 == h + skiplen && Find(icase, pattern, file, h2) == goal
    {
      skiplen := if Printable(c) then badchar[c as int - WS_LOW] else plen;
      FindOn(icase, pattern, file, h, skiplen);
      h2 := h + skiplen;
    }

    /** One turn of the loop up to the comparison, with the pattern at h of the file. */
    method Try(icase: bool, skiplen: int, ghost h: int) returns (c: char, same: bool)
      requires Valid() && 0 <= skiplen <= plen && 0 <= pos && (pos < end || (pos == 0 && skiplen == pendix))
      requires pos + skiplen >= pendix && 0 <= h == Offset() + skiplen - pendix
      modifies `fpos, `end, `endix, `pos, buf
      ensures Valid() && Offset() == h + pendix && pendix <= pos < BUFSIZE && (c != EOF_CHAR ==> pos < end)
      ensures if c == EOF_CHAR then h + plen > |file| else h + plen <= |file| && c == file[h + plen - 1]
      ensures same <==> Occurs(icase, pattern, file, h)
    {
      c := Skip(skiplen);
      same := false;
      if c != EOF_CHAR {
        same := Compare(icase);
      }
    }

    /** bmh, called with the buffer as bmh_reset leaves it: what Find finds from where the file
        stood, so the first occurrence unless a character moves the pattern too far. */
    method Search(icase: bool) returns (ret: int, matchStart: int, matchEnd: int)
      requires Valid() && pos == 0
      modifies `fpos, `end, `endix, `pos, buf
      ensures Valid()
      ensures ret == 0 || ret == 1
      ensures Find(icase, pattern, file, old(Offset())) == if ret == 1 then matchStart else -1
      ensures ret == 1 ==>
        && old(Offset()) <= matchStart && Occurs(icase, pattern, file, matchStart)
        && matchEnd == matchStart + |pattern| + 1
      ensures !icase || MovesSafe(icase, pattern) ==>
        NoneIn(icase, pattern, file, old(Offset()), if ret == 1 then matchStart else |file|)
    {
      ghost var h, first := Offset(), true;
      ghost var goal := Find(icase, pattern, file, h);
      FirstFound(icase, pattern, file, h, goal);
      var skiplen := pendix;
      while true
        invariant Valid()
        invariant if first then pos == 0 && skiplen == pendix else pendix <= pos < end && 1 <= skiplen <= plen
        invariant old(Offset()) <= h == Offset() + skiplen - pendix
        invariant Find(icase, pattern, file, h) == goal
        decreases if first then 1 else 0, |file| - Offset()
      {
        var c, same := Try(icase, skiplen, h);
        first := false;
        if c == EOF_CHAR {
          return 0, 0, 0;
        }
        if same {
          return 1, fpos - 1 - pendix - (endix - pos), fpos + 1 - (endix - pos);
        }
        skiplen, h := TableShift(icase, c, h, goal);
      }
    }
  }
}
