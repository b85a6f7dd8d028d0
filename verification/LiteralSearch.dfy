/** Which expressions of literals the search of SimpleMatch.dfy finds: whether what it reports is an
    occurrence, and whether it is the leftmost one, for every input. */
module LiteralSearch {
  import opened Regex
  import opened SimpleMatch

  // ----- two conditions on the pattern -----

  /** The pattern as written starts with an even number of backslashes, none included. */
  predicate EvenLead(simple: string) {
    simple == "" || simple[0] != '\\' || (|simple| > 1 && simple[1] == '\\' && EvenLead(simple[2..]))
  }

  /** It does, or all its literals are backslashes as far as the comparison can tell. */
  predicate LeadOk(icase: bool, simple: string) {
    EvenLead(simple) || forall k :: 0 <= k < |Unescape(simple)| ==> CharEq(icase, Unescape(simple)[k], '\\')
  }

  /** If case matters only the even number counts. */
  lemma {:induction false} LeadOkCase(simple: string)
    requires WellEscaped(simple)
    ensures LeadOk(false, simple) <==> EvenLead(simple)
    decreases |simple|
  {
    if simple != "" && simple[0] == '\\' {
      var u, v := Unescape(simple), Unescape(simple[2..]);
      assert u == [simple[1]] + v;
      if LeadOk(false, simple) && !EvenLead(simple) {
        assert u[0] == '\\';
        assert forall k :: 0 <= k < |v| ==> v[k] == u[k + 1];
        LeadOkCase(simple[2..]);
      }
    }
  }

  /** r is the leftmost occurrence, or -1 if there is none. */
  ghost predicate Leftmost(icase: bool, u: string, input: string, r: int) {
    && (r == -1 || Occurs(icase, u, input, r))
    && forall i :: 0 <= i && (r == -1 || i < r) ==> !Occurs(icase, u, input, i)
  }

  /** The first place after the start where the first literal comes again. */
  function Recurrence(icase: bool, u: string, from: int): (r: int)
    requires 1 <= from
    ensures from <= r && (from <= |u| ==> r <= |u|)
    ensures r < |u| ==> CharEq(icase, u[r], u[0])
    ensures forall i :: from <= i < r && i < |u| ==> !CharEq(icase, u[i], u[0])
    decreases |u| - from
  {
    if from >= |u| || CharEq(icase, u[from], u[0]) then from else Recurrence(icase, u, from + 1)
  }

  /** From where its first literal comes again, the pattern repeats itself: "abab", "aaa" and
      "abc" do, "aab" does not. */
  predicate Repeats(icase: bool, u: string) {
    var r := Recurrence(icase, u, 1);
    forall i :: r <= i < |u| ==> CharEq(icase, u[i], u[i - r])
  }

  // ----- what the search has to report -----

  /** What is reported for this input is an occurrence. */
  predicate RawSound(icase: bool, simple: string, input: string)
    requires NulFree(input)
  {
    match SearchRaw(icase, simple, input, 0, 0, 0)
    case NotFound => true
    case Found(s, e) => Occurs(icase, Unescape(simple), input, s) && e == s + |Unescape(simple)|
  }

  /** It is the leftmost one, and nothing is reported only if there is none. */
  ghost predicate RawExact(icase: bool, simple: string, input: string)
    requires NulFree(input)
  {
    match SearchRaw(icase, simple, input, 0, 0, 0)
    case NotFound => Leftmost(icase, Unescape(simple), input, -1)
    case Found(s, e) => Leftmost(icase, Unescape(simple), input, s) && e == s + |Unescape(simple)|
  }

  // ----- the search on the literals -----

  /** The search on the literals themselves: k of them are matched before position p. The
      result is the start of the reported match, or -1. */
  function Scan(icase: bool, u: string, input: string, p: int, k: int): (r: int)
    requires 0 <= k <= |u| && k <= p <= |input|
    ensures r == -1 || (p - k <= r && r + |u| <= |input|)
    decreases |input| - p
  {
    if k == |u| then p - k
    else if p == |input| then -1
    else if CharEq(icase, u[k], input[p]) then Scan(icase, u, input, p + 1, k + 1)
    else if k > 0 && CharEq(icase, u[0], input[p]) then Scan(icase, u, input, p + 1, 1)
    else Scan(icase, u, input, p + 1, 0)
  }

  lemma ScanStep(icase: bool, u: string, input: string, p: int, k: int)
    requires 0 <= k < |u| && k <= p < |input|
    ensures var k' :=
        if CharEq(icase, u[k], input[p]) then k + 1 else if k > 0 && CharEq(icase, u[0], input[p]) then 1 else 0;
      Scan(icase, u, input, p, k) == Scan(icase, u, input, p + 1, k')
  {
  }

  lemma RawStep(icase: bool, simple: string, input: string, p: int, s: int, start: int)
    requires NulFree(input) && 0 <= p < |input| && 0 <= s < |simple|
    ensures var t, s' := Look(simple, s), SearchStep(icase, simple, s, input[p]);
      SearchRaw(icase, simple, input, p, s, start) ==
      SearchRaw(icase, simple, input, p + 1, s',
                if CharEq(icase, CharAt(simple, t), input[p]) then start else if s' == 1 then p else p + 1)
  {
  }

  /** What it reports is an occurrence, whatever the pattern. */
  lemma {:induction false} ScanOccurs(icase: bool, u: string, input: string, p: int, k: int)
    requires 0 <= k <= |u| && k <= p <= |input|
    requires forall h :: 0 <= h < k ==> CharEq(icase, input[p - k + h], u[h])
    ensures var r := Scan(icase, u, input, p, k); r >= 0 ==> Occurs(icase, u, input, r)
    decreases |input| - p
  {
    if k < |u| && p < |input| {
      var k' :=
        if CharEq(icase, u[k], input[p]) then k + 1 else if k > 0 && CharEq(icase, u[0], input[p]) then 1 else 0;
      ScanStep(icase, u, input, p, k);
      ScanOccurs(icase, u, input, p + 1, k');
    }
  }

  /** In a repeating pattern, a shift that lines up the first literal lines up the rest. */
  lemma {:induction false} ShiftEqual(icase: bool, u: string, j: int, k: int)
    requires Repeats(icase, u) && 0 < j <= k < |u| && CharEq(icase, u[j], u[0])
    ensures CharEq(icase, u[k], u[k - j])
    decreases j
  {
    var r := Recurrence(icase, u, 1);
    assert r <= j;
    if j > r {
      ShiftEqual(icase, u, j - r, k - r);
    }
  }

  /** Everything before the literals in hand is known not to start an occurrence. */
  ghost predicate NoneBefore(icase: bool, u: string, input: string, i: int) {
    forall h :: 0 <= h < i ==> !Occurs(icase, u, input, h)
  }

  lemma MismatchSkips(icase: bool, u: string, input: string, p: int, k: int)
    requires Repeats(icase, u) && 0 <= k < |u| && k <= p < |input|
    requires forall h :: 0 <= h < k ==> CharEq(icase, u[h], input[p - k + h])
    requires !CharEq(icase, u[k], input[p]) && NoneBefore(icase, u, input, p - k)
    ensures NoneBefore(icase, u, input, p)
    ensures !CharEq(icase, u[0], input[p]) ==> NoneBefore(icase, u, input, p + 1)
  {
    forall h | p - k <= h < p ensures !Occurs(icase, u, input, h) {
      if Occurs(icase, u, input, h) {
        var j := h - (p - k);
        assert CharEq(icase, u[p - h], input[h + (p - h)]);
        if j > 0 {
          assert CharEq(icase, u[0], input[h + 0]) && CharEq(icase, u[j], input[p - k + j]);
          ShiftEqual(icase, u, j, k);
        }
      }
    }
    assert Occurs(icase, u, input, p) ==> CharEq(icase, u[0], input[p + 0]);
  }

  lemma {:induction false} ScanLeftmost(icase: bool, u: string, input: string, p: int, k: int)
    requires Repeats(icase, u) && 0 <= k <= |u| && k <= p <= |input|
    requires forall h :: 0 <= h < k ==> CharEq(icase, u[h], input[p - k + h])
    requires NoneBefore(icase, u, input, p - k)
    ensures Leftmost(icase, u, input, Scan(icase, u, input, p, k))
    decreases |input| - p
  {
    if k < |u| && p < |input| {
      if CharEq(icase, u[k], input[p]) {
        ScanLeftmost(icase, u, input, p + 1, k + 1);
      } else {
        MismatchSkips(icase, u, input, p, k);
        ScanLeftmost(icase, u, input, p + 1, if k > 0 && CharEq(icase, u[0], input[p]) then 1 else 0);
      }
    }
  }

  // ----- the pattern as written -----

  /** After an even number of backslashes, the pattern pointer that has just passed the first of
      them stands behind the first literal. */
  lemma {:induction false} EvenShift(simple: string)
    requires WellEscaped(simple) && EvenLead(simple) && simple != "" && simple[0] == '\\'
    requires exists k :: 0 <= k < |Unescape(simple)| && Unescape(simple)[k] != '\\'
    ensures Unescape(simple)[0] == '\\'
    ensures WellEscaped(simple[1..]) && Unescape(simple[1..]) == Unescape(simple)[1..]
    decreases |simple|
  {
    var rest := simple[2..];
    assert Unescape(simple) == ['\\'] + Unescape(rest);
    var k :| 0 <= k < |Unescape(simple)| && Unescape(simple)[k] != '\\';
    assert Unescape(rest)[k - 1] != '\\';
    assert simple[1..][0] == '\\' && simple[1..][1] == rest[0] && simple[1..][2..] == rest[1..];
    if rest[0] == '\\' {
      EvenShift(rest);
      assert Unescape(rest) == ['\\'] + Unescape(rest)[1..];
    }
  }

  /** After an odd number of them it stands before all the literals again. */
  lemma {:induction false} OddShift(simple: string)
    requires WellEscaped(simple) && !EvenLead(simple)
    ensures simple != "" && simple[0] == '\\'
    ensures WellEscaped(simple[1..]) && Unescape(simple[1..]) == Unescape(simple)
    decreases |simple|
  {
    var rest := simple[2..];
    assert simple[1..][1..] == rest && simple[1..][0] == simple[1];
    if simple[1] == '\\' {
      OddShift(rest);
      assert simple[1..][1] == rest[0] && simple[1..][2..] == rest[1..];
    }
  }

  /** The step on the literals that the step of the pattern pointer amounts to. */
  lemma StepOnLiterals(icase: bool, simple: string, s: int, k: int, c: char)
    requires simple != "" && LeadOk(icase, simple) && (s == 0 <==> k == 0) && c != '\0'
    requires WellEscaped(simple) && PointsAt(simple, s, Unescape(simple), k) && s < |simple|
    ensures var u, t, s' := Unescape(simple), Look(simple, s), SearchStep(icase, simple, s, c);
      && k < |u| && |u| > 0 && t < |simple|
      && (CharEq(icase, u[k], c) <==> CharEq(icase, CharAt(simple, t), c))
      && if CharEq(icase, u[k], c) then s' == t + 1 && PointsAt(simple, s', u, k + 1)
         else if k > 0 && CharEq(icase, u[0], c) then s' == 1 && PointsAt(simple, 1, u, 1)
         else s' == 0 && PointsAt(simple, 0, u, 0)
  {
    var u := Unescape(simple);
    assert simple[0..] == simple && u[0..] == u;
    PointsOn(simple, s, u, k);
    PointsOn(simple, 0, u, 0);
    if simple[0] == '\\' && EvenLead(simple) && exists j :: 0 <= j < |u| && u[j] != '\\' {
      EvenShift(simple);
    }
  }

  /** One character: both searches move on alike. */
  lemma StepBoth(icase: bool, simple: string, input: string, p: int, s: int, k: int) returns (s': int, k': int)
    requires simple != "" && LeadOk(icase, simple) && WellEscaped(simple) && NulFree(input)
    requires PointsAt(simple, s, Unescape(simple), k) && s < |simple|
    requires (s == 0 <==> k == 0) && k <= p < |input|
    ensures 0 <= s' <= |simple| && 0 <= k' <= |Unescape(simple)| && (s' == 0 <==> k' == 0) && k' <= p + 1
    ensures PointsAt(simple, s', Unescape(simple), k') && k < |Unescape(simple)|
    ensures SearchRaw(icase, simple, input, p, s, p - k) == SearchRaw(icase, simple, input, p + 1, s', p + 1 - k')
    ensures Scan(icase, Unescape(simple), input, p, k) == Scan(icase, Unescape(simple), input, p + 1, k')
  {
    var u, c := Unescape(simple), input[p];
    StepOnLiterals(icase, simple, s, k, c);
    s' := SearchStep(icase, simple, s, c);
    k' := if CharEq(icase, u[k], c) then k + 1 else if k > 0 && CharEq(icase, u[0], c) then 1 else 0;
    RawStep(icase, simple, input, p, s, p - k);
    ScanStep(icase, u, input, p, k);
  }

  /** Under the condition on the backslashes, the pattern as written and its literals search
      alike. */
  lemma {:induction false} RawIsScan(icase: bool, simple: string, input: string, p: int, s: int, k: int)
    requires LeadOk(icase, simple)
    requires WellEscaped(simple) && NulFree(input) && PointsAt(simple, s, Unescape(simple), k)
    requires (s == 0 <==> k == 0) && k <= p <= |input|
    ensures SearchRaw(icase, simple, input, p, s, p - k) ==
            var r := Scan(icase, Unescape(simple), input, p, k);
            if r == -1 then NotFound else Found(r, r + |Unescape(simple)|)
    decreases |input| - p
  {
    if s < |simple| && p < |input| {
      var s', k' := StepBoth(icase, simple, input, p, s, k);
      RawIsScan(icase, simple, input, p + 1, s', k');
    } else {
      PointsOn(simple, s, Unescape(simple), k);
    }
  }

  lemma RawIsWholeScan(icase: bool, simple: string, input: string)
    requires LeadOk(icase, simple) && WellEscaped(simple) && NulFree(input)
    ensures var u := Unescape(simple);
      SearchRaw(icase, simple, input, 0, 0, 0) ==
      var r := Scan(icase, u, input, 0, 0); if r == -1 then NotFound else Found(r, r + |u|)
  {
    assert simple[0..] == simple && Unescape(simple)[0..] == Unescape(simple);
    RawIsScan(icase, simple, input, 0, 0, 0);
  }

  // ----- inputs on which the search is wrong -----

  /** While the input goes on with the literals the search goes on with the match. */
  lemma {:induction false} RawFeed(icase: bool, simple: string, input: string, p: int, s: int, start: int,
                                   u: string, k: int, n: int) returns (s': int)
    requires NulFree(input) && PointsAt(simple, s, u, k) && 0 <= p && k <= n <= |u| && p + (n - k) <= |input|
    requires forall j :: k <= j < n ==> input[p + (j - k)] == u[j]
    ensures PointsAt(simple, s', u, n)
    ensures SearchRaw(icase, simple, input, p, s, start) == SearchRaw(icase, simple, input, p + (n - k), s', start)
    decreases n - k
  {
    if k == n {
      s' := s;
    } else {
      PointsOn(simple, s, u, k);
      assert input[p + (k - k)] == u[k];
      RawStep(icase, simple, input, p, s, start);
      s' := RawFeed(icase, simple, input, p + 1, Look(simple, s) + 1, start, u, k + 1, n);
    }
  }

  /** A match is never reported before the last restart. */
  lemma {:induction false} StartsLater(icase: bool, simple: string, input: string, p: int, s: int, start: int)
    requires NulFree(input) && 0 <= p <= |input| && 0 <= s <= |simple| && start <= p
    ensures var r := SearchRaw(icase, simple, input, p, s, start); r.Found? ==> r.start >= start
    decreases |input| - p
  {
    if s < |simple| && p < |input| {
      var t, s' := Look(simple, s), SearchStep(icase, simple, s, input[p]);
      RawStep(icase, simple, input, p, s, start);
      StartsLater(icase, simple, input, p + 1, s',
                  if CharEq(icase, CharAt(simple, t), input[p]) then start else if s' == 1 then p else p + 1);
    }
  }

  /** The first literal that can be told from a backslash. */
  function FirstOther(icase: bool, u: string): (k: int)
    ensures 0 <= k <= |u| && (k < |u| ==> !CharEq(icase, u[k], '\\'))
    ensures forall j :: 0 <= j < k ==> CharEq(icase, u[j], '\\')
  {
    if u == "" || !CharEq(icase, u[0], '\\') then 0 else 1 + FirstOther(icase, u[1..])
  }

  /** The input that leads the pattern pointer to the backslash itself: the literals up to the
      first that is no backslash, a backslash, and all the literals. */
  function Astray(icase: bool, u: string): string {
    u[..FirstOther(icase, u)] + ['\\'] + u
  }

  /** Of u up to k, a backslash, and all of u. */
  predicate AstrayText(t: string, u: string, k: int) {
    && NulFree(t) && |t| == k + 1 + |u| && 0 <= k <= |u| && t[k] == '\\'
    && (forall j :: 0 <= j < k ==> t[j] == u[j]) && (forall j :: 0 <= j < |u| ==> t[k + 1 + j] == u[j])
  }

  lemma AstrayChars(u: string, t: string, k: int)
    requires NulFree(u) && 0 <= k <= |u| && t == u[..k] + ['\\'] + u
    ensures AstrayText(t, u, k)
  {
    forall j | 0 <= j < |t| ensures t[j] == if j < k then u[j] else if j == k then '\\' else u[j - k - 1] {}
  }

  lemma {:induction false} UnescapeNulFree(simple: string)
    requires NulFree(simple)
    ensures NulFree(Unescape(simple))
    decreases |simple|
  {
    if |simple| > 1 {
      UnescapeNulFree(simple[1..]);
      UnescapeNulFree(simple[2..]);
    }
  }

  lemma AstrayTurn(icase: bool, simple: string, s: int, u: string, k: int)
    requires PointsAt(simple, s, u, k) && k < |u| && !CharEq(icase, u[k], '\\') && simple != "" && simple[0] == '\\'
    ensures s < |simple| && !CharEq(icase, CharAt(simple, Look(simple, s)), '\\')
    ensures SearchStep(icase, simple, s, '\\') == 1
  {
    PointsOn(simple, s, u, k);
  }

  /** The stretch reported starts at k and is one character longer than the pattern. */
  predicate OneTooLong(icase: bool, simple: string, u: string, t: string, k: int) {
    NulFree(t) && SearchRaw(icase, simple, t, 0, 0, 0) == Found(k, k + |u| + 1)
  }

  lemma AstrayRun(icase: bool, simple: string, u: string, t: string, k: int)
    requires AstrayText(t, u, k) && k < |u| && !CharEq(icase, u[k], '\\')
    requires PointsAt(simple, 0, u, 0) && PointsAt(simple, 1, u, 0) && simple != "" && simple[0] == '\\'
    ensures OneTooLong(icase, simple, u, t, k)
  {
    var s := RawFeed(icase, simple, t, 0, 0, 0, u, 0, k);
    AstrayTurn(icase, simple, s, u, k);
    RawStep(icase, simple, t, k, s, 0);
    var s' := RawFeed(icase, simple, t, k + 1, 1, k, u, 0, |u|);
    PointsOn(simple, s', u, |u|);
  }

  lemma AstrayPoints(icase: bool, simple: string, u: string)
    requires WellEscaped(simple) && u == Unescape(simple) && !LeadOk(icase, simple)
    ensures simple != "" && simple[0] == '\\' && FirstOther(icase, u) < |u|
    ensures PointsAt(simple, 0, u, 0) && PointsAt(simple, 1, u, 0)
  {
    OddShift(simple);
    assert simple[0..] == simple && u[0..] == u;
  }

  lemma {:induction false} AstrayInput(icase: bool, simple: string, u: string, t: string, k: int)
    requires WellEscaped(simple) && NulFree(simple) && !LeadOk(icase, simple)
    requires u == Unescape(simple) && t == Astray(icase, u) && k == FirstOther(icase, u)
    ensures AstrayText(t, u, k) && k < |u| && !CharEq(icase, u[k], '\\')
    ensures PointsAt(simple, 0, u, 0) && PointsAt(simple, 1, u, 0) && simple != "" && simple[0] == '\\'
  {
    UnescapeNulFree(simple);
    AstrayPoints(icase, simple, u);
    AstrayChars(u, t, k);
  }

  /** Every other pattern is led astray: what is reported is one character too long. */
  lemma {:induction false} LeadingBackslash(icase: bool, simple: string, u: string, t: string)
    requires WellEscaped(simple) && NulFree(simple) && !LeadOk(icase, simple)
    requires u == Unescape(simple) && t == Astray(icase, u)
    ensures OneTooLong(icase, simple, u, t, FirstOther(icase, u))
  {
    var k := FirstOther(icase, u);
    AstrayInput(icase, simple, u, t, k);
    AstrayRun(icase, simple, u, t, k);
  }

  /** The input that defeats a pattern which stops repeating at k. */
  function Defeat(icase: bool, u: string, k: int): string
    requires Recurrence(icase, u, 1) <= k < |u|
  {
    u[..k] + u[k - Recurrence(icase, u, 1)..]
  }

  /** The pattern stands in it, shifted by its recurrence. */
  lemma DefeatOccurs(icase: bool, u: string, k: int, r: int, t: string)
    requires r == Recurrence(icase, u, 1) && r <= k < |u| && t == Defeat(icase, u, k)
    requires forall i :: r <= i < k ==> CharEq(icase, u[i], u[i - r])
    ensures Occurs(icase, u, t, r)
  {
    forall j | 0 <= j < |u| ensures CharEq(icase, t[r + j], u[j]) {
      if r + j < k {
        assert t[r + j] == u[r + j] && CharEq(icase, u[r + j], u[r + j - r]);
      } else {
        assert t[r + j] == u[k - r..][r + j - k];
      }
    }
  }

  lemma DefeatNulFree(icase: bool, u: string, k: int)
    requires NulFree(u) && Recurrence(icase, u, 1) <= k < |u|
    ensures NulFree(Defeat(icase, u, k))
  {
    var head, tail := u[..k], u[k - Recurrence(icase, u, 1)..];
    forall j | 0 <= j < |head + tail| ensures (head + tail)[j] != '\0' {
      assert (head + tail)[j] == if j < k then head[j] else tail[j - k];
    }
  }

  lemma {:induction false} FirstBreak(icase: bool, u: string, from: int) returns (k: int)
    requires Recurrence(icase, u, 1) <= from <= |u| && !Repeats(icase, u)
    requires forall i :: Recurrence(icase, u, 1) <= i < from ==> CharEq(icase, u[i], u[i - Recurrence(icase, u, 1)])
    ensures Recurrence(icase, u, 1) <= k < |u|
    ensures !CharEq(icase, u[k], u[k - Recurrence(icase, u, 1)])
    ensures forall i :: Recurrence(icase, u, 1) <= i < k ==> CharEq(icase, u[i], u[i - Recurrence(icase, u, 1)])
    decreases |u| - from
  {
    if from < |u| && CharEq(icase, u[from], u[from - Recurrence(icase, u, 1)]) {
      k := FirstBreak(icase, u, from + 1);
    } else {
      k := from;
    }
  }

  /** The search passes the occurrence in it. */
  lemma DefeatMissed(icase: bool, simple: string, k: int)
    requires WellEscaped(simple) && NulFree(simple)
    requires var u := Unescape(simple); var r := Recurrence(icase, u, 1);
      && r <= k < |u| && !CharEq(icase, u[k], u[k - r])
      && forall i :: r <= i < k ==> CharEq(icase, u[i], u[i - r])
    ensures var t := Defeat(icase, Unescape(simple), k); NulFree(t) && !RawExact(icase, simple, t)
  {
    var u := Unescape(simple);
    var r, t := Recurrence(icase, u, 1), Defeat(icase, u, k);
    UnescapeNulFree(simple);
    DefeatNulFree(icase, u, k);
    DefeatOccurs(icase, u, k, r, t);
    assert t[..k] == u[..k] && t[k] == u[k - r] && r < k;
    PassedBy(icase, simple, u, t, r, k);
  }

  lemma PassedBy(icase: bool, simple: string, u: string, t: string, r: int, k: int)
    requires WellEscaped(simple) && u == Unescape(simple) && NulFree(t)
    requires 0 <= r < k < |u| && k < |t| && Occurs(icase, u, t, r)
    requires t[..k] == u[..k] && !CharEq(icase, u[k], t[k])
    ensures !RawExact(icase, simple, t)
  {
    assert simple[0..] == simple && u[0..] == u;
    assert forall j :: 0 <= j < k ==> t[0 + (j - 0)] == t[..k][j] == u[..k][j] == u[j];
    var s := RawFeed(icase, simple, t, 0, 0, 0, u, 0, k);
    PointsOn(simple, s, u, k);
    RawStep(icase, simple, t, k, s, 0);
    var s' := SearchStep(icase, simple, s, t[k]);
    StartsLater(icase, simple, t, k + 1, s', if s' == 1 then k else k + 1);
  }

  // ----- the results -----

  /** "aab" is missed in "aaab". */
  lemma SearchMisses()
    ensures Occurs(false, "aab", "aaab", 1) && SearchRaw(false, "aab", "aaab", 0, 0, 0) == NotFound
  {
    assert SearchRaw(false, "aab", "aaab", 2, 2, 0) == NotFound;
  }

  /** For every other pattern there is an input on which what the search reports is wrong. */
  lemma OthersDefeated(icase: bool, simple: string) returns (input: string)
    requires WellEscaped(simple) && NulFree(simple)
    requires !(Repeats(icase, Unescape(simple)) && LeadOk(icase, simple))
    ensures NulFree(input) && !RawExact(icase, simple, input)
  {
    var u := Unescape(simple);
    if !LeadOk(icase, simple) {
      input := Astray(icase, u);
      LeadingBackslash(icase, simple, u, input);
    } else {
      var k := FirstBreak(icase, u, Recurrence(icase, u, 1));
      DefeatMissed(icase, simple, k);
      input := Defeat(icase, u, k);
    }
  }

  /** In every input what is reported is an occurrence, exactly when the pattern as written
      starts with an even number of backslashes (or cannot be told from backslashes). */
  lemma HitsSound(icase: bool, simple: string)
    requires WellEscaped(simple) && NulFree(simple)
    ensures (forall input | NulFree(input) :: RawSound(icase, simple, input)) <==> LeadOk(icase, simple)
  {
    if LeadOk(icase, simple) {
      forall input | NulFree(input) ensures RawSound(icase, simple, input) {
        HitSound(icase, simple, input);
      }
    } else {
      var u := Unescape(simple);
      var t := Astray(icase, u);
      LeadingBackslash(icase, simple, u, t);
      assert !RawSound(icase, simple, t);
    }
  }

  lemma HitSound(icase: bool, simple: string, input: string)
    requires WellEscaped(simple) && NulFree(input) && LeadOk(icase, simple)
    ensures RawSound(icase, simple, input)
  {
    RawIsWholeScan(icase, simple, input);
    ScanOccurs(icase, Unescape(simple), input, 0, 0);
  }

  lemma RepeatingExact(icase: bool, simple: string, input: string)
    requires WellEscaped(simple) && NulFree(input) && LeadOk(icase, simple) && Repeats(icase, Unescape(simple))
    ensures RawExact(icase, simple, input)
  {
    RawIsWholeScan(icase, simple, input);
    ScanLeftmost(icase, Unescape(simple), input, 0, 0);
  }

  /** The search reports the leftmost occurrence in every input, and nothing only if there is
      none, exactly when the pattern repeats itself from the first recurrence of its first
      literal on and, as written, starts with an even number of backslashes (or cannot be told
      from backslashes). */
  lemma SearchExact(icase: bool, simple: string)
    requires WellEscaped(simple) && NulFree(simple)
    ensures (forall input | NulFree(input) :: RawExact(icase, simple, input)) <==>
            Repeats(icase, Unescape(simple)) && LeadOk(icase, simple)
  {
    if Repeats(icase, Unescape(simple)) && LeadOk(icase, simple) {
      forall input | NulFree(input) ensures RawExact(icase, simple, input) {
        RepeatingExact(icase, simple, input);
      }
    } else {
      var input := OthersDefeated(icase, simple);
    }
  }
}
