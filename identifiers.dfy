/** The identifier extractor of the template compiler (`parseIdentifiers` in
    src/template/parser.ts): quoted strings are cut out of each statement with
    `/[^\\](["']).*?[^\\]\1/g`, then the root names of access chains are
    collected with the `identifierRegex` of line 8. Both regular expressions
    are written out as character predicates and scanners. */
module Identifiers {
  import opened Wrappers
  import opened JsText

  // ---------------------------------------------------------------------
  // Cutting out quoted strings: `statement.replace(quoteWrapStringRegx, '')`
  // ---------------------------------------------------------------------

  predicate IsQuote(c: char)
  {
    c == '"' || c == '\''
  }

  /** The lazy tail `.*?[^\\]\1` of the quote pattern, tried from `k`, can
      stop at `j`: `s[j]` is not a backslash and is followed by the quote `q`,
      and `.` matches every character from `k` up to `j` (none is a line
      terminator). */
  predicate TailEndsAt(s: string, q: char, k: nat, j: nat)
  {
    && k <= j && j + 1 < |s| && s[j] != '\\' && s[j + 1] == q
    && forall m :: k <= m < j ==> !IsLineTerminator(s[m])
  }

  /** The lazy tail tried from `k`: it stops at the FIRST place it can, and
      fails when there is none. The result is the end of the match. */
  function CloseQuote(s: string, q: char, k: nat): (e: Option<nat>)
    requires k <= |s|
    ensures e.Some? ==> k + 2 <= e.value <= |s| && TailEndsAt(s, q, k, e.value - 2)
    ensures e.Some? ==> forall j :: k <= j < e.value - 2 ==> !TailEndsAt(s, q, k, j)
    ensures e.None? ==> forall j :: !TailEndsAt(s, q, k, j)
    decreases |s| - k
  {
    if k + 1 >= |s| then None
    else if s[k] != '\\' && s[k + 1] == q then Some(k + 2)
    else if IsLineTerminator(s[k]) then None
    else TailShift(s, q, k); CloseQuote(s, q, k + 1)
  }

  /** Past a character that neither stops the tail nor is a line
      terminator, the tail can stop at the same places as one step later. */
  lemma TailShift(s: string, q: char, k: nat)
    requires k + 1 < |s| && !IsLineTerminator(s[k]) && !(s[k] != '\\' && s[k + 1] == q)
    ensures forall j: nat :: TailEndsAt(s, q, k, j) <==> TailEndsAt(s, q, k + 1, j)
  {
    forall j: nat | TailEndsAt(s, q, k + 1, j) ensures TailEndsAt(s, q, k, j) {
      forall m | k <= m < j ensures !IsLineTerminator(s[m]) {
        if m > k { assert k + 1 <= m < j; }
      }
    }
  }

  /** The quote pattern matches `s[p..e]`: a character that is not a
      backslash, an opening quote, and a tail that stops right before `e`. */
  predicate QuoteMatch(s: string, p: nat, e: nat)
  {
    && p + 4 <= e <= |s| && s[p] != '\\' && IsQuote(s[p + 1])
    && TailEndsAt(s, s[p + 1], p + 2, e - 2)
  }

  /** Whether the quote pattern matches at `p`, and where the match ends: the
      shortest match there, or none. The character before the quote is part
      of the match and is cut too. */
  function QuotedAt(s: string, p: nat): (e: Option<nat>)
    requires p <= |s|
    ensures e.Some? ==> QuoteMatch(s, p, e.value) && forall e' :: p <= e' < e.value ==> !QuoteMatch(s, p, e')
    ensures e.None? ==> forall e' :: !QuoteMatch(s, p, e')
  {
    if p + 1 < |s| && s[p] != '\\' && IsQuote(s[p + 1]) then CloseQuote(s, s[p + 1], p + 2) else None
  }

  /** The global `replace` from position `p`: matches are cut left to right,
      every other character is kept. */
  function StripFrom(s: string, p: nat): (r: string)
    requires p <= |s|
    ensures |r| <= |s| - p
    decreases |s| - p
  {
    if p == |s| then []
    else match QuotedAt(s, p)
      case Some(e) => StripFrom(s, e)
      case None => [s[p]] + StripFrom(s, p + 1)
  }

  /** The statement with its quoted sub-strings cut out. */
  function StripQuoted(s: string): string
  {
    StripFrom(s, 0)
  }

  /** Up to the leftmost position where the pattern matches, every character
      is kept. */
  lemma {:induction false} StripUpTo(s: string, p: nat, x: nat)
    requires p <= x <= |s|
    requires forall y :: p <= y < x ==> QuotedAt(s, y).None?
    ensures StripFrom(s, p) == s[p..x] + StripFrom(s, x)
    decreases x - p
  {
    if p < x {
      StripUpTo(s, p + 1, x);
      var rest := StripFrom(s, x);
      assert StripFrom(s, p) == [s[p]] + StripFrom(s, p + 1);
      assert s[p..x] == [s[p]] + s[p + 1..x];
      assert [s[p]] + (s[p + 1..x] + rest) == ([s[p]] + s[p + 1..x]) + rest;
    }
  }

  /** A statement without quote characters is left as it is. */
  lemma StripWithoutQuotes(s: string, p: nat)
    requires p <= |s|
    requires forall k :: p <= k < |s| ==> !IsQuote(s[k])
    ensures StripFrom(s, p) == s[p..]
  {
    forall y | p <= y < |s| ensures QuotedAt(s, y).None? {
      if y + 1 < |s| { assert !IsQuote(s[y + 1]); }
    }
    StripUpTo(s, p, |s|);
  }

  /** The positions of the characters `replace` keeps from `p` on. */
  ghost function KeptPositions(s: string, p: nat): seq<nat>
    requires p <= |s|
    decreases |s| - p
  {
    if p == |s| then []
    else match QuotedAt(s, p)
      case Some(e) => KeptPositions(s, e)
      case None => [p] + KeptPositions(s, p + 1)
  }

  /** The result is a subsequence of `s[p..]`: the characters at increasing
      positions where no match starts; every position that is dropped lies
      inside a match that starts at or before it. */
  lemma StripKeeps(s: string, p: nat)
    requires p <= |s|
    ensures var r, f := StripFrom(s, p), KeptPositions(s, p);
      && |f| == |r|
      && (forall i :: 0 <= i < |f| ==> p <= f[i] < |s| && r[i] == s[f[i]] && QuotedAt(s, f[i]).None?)
      && (forall i, j :: 0 <= i < j < |f| ==> f[i] < f[j])
      && (forall x :: p <= x < |s| && x !in f ==>
            exists y :: p <= y <= x && QuotedAt(s, y).Some? && x < QuotedAt(s, y).value)
  {
    KeptInOrder(s, p);
    StripCutsExact(s, p);
    var cs := Cuts(s, p);
    forall x | p <= x < |s| && x !in KeptPositions(s, p)
      ensures exists y :: p <= y <= x && QuotedAt(s, y).Some? && x < QuotedAt(s, y).value
    {
      var k :| 0 <= k < |cs| && cs[k].0 <= x < cs[k].1;
      assert QuotedAt(s, cs[k].0) == Some(cs[k].1);
    }
  }

  /** The kept characters are those at the kept positions, which increase
      and are positions where no match starts. */
  lemma {:induction false} KeptInOrder(s: string, p: nat)
    requires p <= |s|
    ensures var r, f := StripFrom(s, p), KeptPositions(s, p);
      && |f| == |r|
      && (forall i :: 0 <= i < |f| ==> p <= f[i] < |s| && r[i] == s[f[i]] && QuotedAt(s, f[i]).None?)
      && (forall i, j :: 0 <= i < j < |f| ==> f[i] < f[j])
    decreases |s| - p
  {
    if p < |s| {
      match QuotedAt(s, p)
      case Some(e) =>
        KeptInOrder(s, e);
      case None =>
        KeptInOrder(s, p + 1);
        assert StripFrom(s, p) == [s[p]] + StripFrom(s, p + 1);
        assert KeptPositions(s, p) == [p] + KeptPositions(s, p + 1);
    }
  }

  /** The matches `replace` cuts from `p` on, left to right, as
      `(start, end)` pairs. */
  ghost function Cuts(s: string, p: nat): seq<(nat, nat)>
    requires p <= |s|
    decreases |s| - p
  {
    if p == |s| then []
    else match QuotedAt(s, p)
      case Some(e) => [(p, e)] + Cuts(s, e)
      case None => Cuts(s, p + 1)
  }

  ghost predicate InCut(cs: seq<(nat, nat)>, x: nat)
  {
    exists k :: 0 <= k < |cs| && cs[k].0 <= x < cs[k].1
  }

  /** The kept positions from `p` on are at least `p`. */
  lemma {:induction false} KeptAfter(s: string, p: nat)
    requires p <= |s|
    ensures forall i :: 0 <= i < |KeptPositions(s, p)| ==> p <= KeptPositions(s, p)[i]
    decreases |s| - p
  {
    if p < |s| {
      match QuotedAt(s, p)
      case Some(e) =>
        KeptAfter(s, e);
      case None =>
        KeptAfter(s, p + 1);
    }
  }

  /** The cut matches are matches of the quote pattern, from `p` on, in
      order and without overlap. */
  ghost predicate CutsFrom(s: string, p: nat, cs: seq<(nat, nat)>)
  {
    && (forall k :: 0 <= k < |cs| ==> p <= cs[k].0 < |s| && QuotedAt(s, cs[k].0) == Some(cs[k].1))
    && (forall k, l :: 0 <= k < l < |cs| ==> cs[k].1 <= cs[l].0)
  }

  /** The cuts are matches of the quote pattern, in order and without
      overlap, and `replace` keeps exactly the characters outside them. */
  lemma {:induction false} StripCutsExact(s: string, p: nat)
    requires p <= |s|
    ensures CutsFrom(s, p, Cuts(s, p))
    ensures forall x :: p <= x < |s| ==> (x in KeptPositions(s, p) <==> !InCut(Cuts(s, p), x))
    decreases |s| - p
  {
    if p < |s| {
      match QuotedAt(s, p)
      case Some(e) =>
        StripCutsExact(s, e);
        CutAtMatch(s, p, e);
      case None =>
        StripCutsExact(s, p + 1);
        KeepAtNoMatch(s, p, p + 1);
    }
  }

  /** The step of `StripCutsExact` at a match `s[p..e]`. */
  lemma CutAtMatch(s: string, p: nat, e: nat)
    requires p < |s| && QuotedAt(s, p) == Some(e)
    requires CutsFrom(s, e, Cuts(s, e))
    requires forall x :: e <= x < |s| ==> (x in KeptPositions(s, e) <==> !InCut(Cuts(s, e), x))
    ensures CutsFrom(s, p, Cuts(s, p))
    ensures forall x :: p <= x < |s| ==> (x in KeptPositions(s, p) <==> !InCut(Cuts(s, p), x))
  {
    assert Cuts(s, p) == [(p, e)] + Cuts(s, e);
    assert KeptPositions(s, p) == KeptPositions(s, e);
    KeptAfter(s, e);
    CutsFromCons(s, p, e, Cuts(s, e));
    KeptOutsideCons(s, p, e, KeptPositions(s, e), Cuts(s, e));
  }

  /** A match at `p` followed by the cuts from its end are cuts from `p`. */
  lemma CutsFromCons(s: string, p: nat, e: nat, rest: seq<(nat, nat)>)
    requires p < |s| && QuotedAt(s, p) == Some(e) && CutsFrom(s, e, rest)
    ensures CutsFrom(s, p, [(p, e)] + rest)
  {
    var cs := [(p, e)] + rest;
    forall k, l | 0 <= k < l < |cs| ensures cs[k].1 <= cs[l].0 {
      assert cs[l] == rest[l - 1];
      if k > 0 {
        assert cs[k] == rest[k - 1];
      }
    }
    forall k | 0 <= k < |cs| ensures p <= cs[k].0 < |s| && QuotedAt(s, cs[k].0) == Some(cs[k].1) {
      if k > 0 {
        assert cs[k] == rest[k - 1];
      }
    }
  }

  /** Kept positions that start at the end `e` of a match at `p` are exactly
      the positions from `p` on outside the match and outside `rest`. */
  lemma KeptOutsideCons(s: string, p: nat, e: nat, kept: seq<nat>, rest: seq<(nat, nat)>)
    requires p < e <= |s|
    requires forall i :: 0 <= i < |kept| ==> e <= kept[i]
    requires forall x :: e <= x < |s| ==> (x in kept <==> !InCut(rest, x))
    ensures forall x :: p <= x < |s| ==> (x in kept <==> !InCut([(p, e)] + rest, x))
  {
    forall x | p <= x < |s| ensures x in kept <==> !InCut([(p, e)] + rest, x) {
      InCutCons((p, e), rest, x);
    }
  }

  /** A position is in a cut of `[head] + rest` exactly when it is in
      `head` or in a cut of `rest`. */
  lemma InCutCons(head: (nat, nat), rest: seq<(nat, nat)>, x: nat)
    ensures InCut([head] + rest, x) <==> (head.0 <= x < head.1 || InCut(rest, x))
  {
    var cs := [head] + rest;
    if InCut(cs, x) && !(head.0 <= x < head.1) {
      var k :| 0 <= k < |cs| && cs[k].0 <= x < cs[k].1;
      assert rest[k - 1] == cs[k];
    }
    if InCut(rest, x) {
      var k :| 0 <= k < |rest| && rest[k].0 <= x < rest[k].1;
      assert cs[k + 1] == rest[k];
    }
    if head.0 <= x < head.1 {
      assert cs[0] == head;
    }
  }

  /** The step of `StripCutsExact` where no match starts at `p`. */
  lemma KeepAtNoMatch(s: string, p: nat, q: nat)
    requires p < |s| && QuotedAt(s, p).None? && q == p + 1
    requires CutsFrom(s, q, Cuts(s, q))
    requires forall x :: q <= x < |s| ==> (x in KeptPositions(s, q) <==> !InCut(Cuts(s, q), x))
    ensures CutsFrom(s, p, Cuts(s, p))
    ensures forall x :: p <= x < |s| ==> (x in KeptPositions(s, p) <==> !InCut(Cuts(s, p), x))
  {
    assert Cuts(s, p) == Cuts(s, q);
    assert KeptPositions(s, p) == [p] + KeptPositions(s, q);
    assert !InCut(Cuts(s, p), p);
  }

  // ---------------------------------------------------------------------
  // Root names: `identifierRegex.exec(statement)` in a loop
  // ---------------------------------------------------------------------

  predicate IsDigit(c: char)
  {
    '0' <= c <= '9'
  }

  /** The characters the class `[^\s`!-\/:-\@\[-^\{-~]` refuses: white space,
      the backtick and the ASCII punctuation ranges `!`..`/`, `:`..`@`,
      `[`..`^` and `{`..`~`. */
  predicate IsExcluded(c: char)
  {
    || IsSpace(c) || c == '`'
    || ('!' <= c <= '/') || (':' <= c <= '@') || ('[' <= c <= '^') || ('{' <= c <= '~')
  }

  /** The first character of a name: `$`, or neither excluded nor a digit. */
  predicate IsNameStart(c: char)
  {
    c == '$' || (!IsExcluded(c) && !IsDigit(c))
  }

  /** A later character of a name: anything not excluded (digits are, `$` is not). */
  predicate IsNamePart(c: char)
  {
    !IsExcluded(c)
  }

  /** The characters `[\s\[\(]` after which a name may start. */
  predicate IsChainOpener(c: char)
  {
    IsSpace(c) || c == '[' || c == '('
  }

  /** End of the greedy run of name characters starting at `i`. */
  function RunEnd(s: string, i: nat): (j: nat)
    requires i <= |s|
    ensures i <= j <= |s|
    ensures j < |s| ==> !IsNamePart(s[j])
    ensures forall k :: i <= k < j ==> IsNamePart(s[k])
    decreases |s| - i
  {
    if i == |s| || !IsNamePart(s[i]) then i else RunEnd(s, i + 1)
  }

  /** A name starts at `g`: a name-start character at the beginning of the
      statement or right after a chain opener. */
  predicate StartsRoot(s: string, g: nat)
  {
    g < |s| && IsNameStart(s[g]) && (g == 0 || IsChainOpener(s[g - 1]))
  }

  /** The name captured at `g`: the start character and the maximal run of
      name characters after it. */
  function NameAt(s: string, g: nat): string
    requires g < |s|
  {
    s[g..RunEnd(s, g + 1)]
  }

  /** A successful `exec`: the capture group is `s[start..end]`, and `end`
      is the new `lastIndex`. */
  datatype Capture = Capture(start: nat, end: nat)

  /** `identifierRegex.exec(s)` with `lastIndex == from`: the leftmost match
      at a position `p >= from`, trying first a chain opener at `p` with the
      name after it, then the start of the text `^` when `p == 0`. */
  function ExecName(s: string, from: nat): (m: Option<Capture>)
    requires from <= |s|
    ensures m.Some? ==>
      && StartsRoot(s, m.value.start) && m.value.end == RunEnd(s, m.value.start + 1)
      && (from < m.value.start || m.value.start == from == 0)
    ensures forall g :: from < g < (if m.Some? then m.value.start else |s|) ==> !StartsRoot(s, g)
    ensures from == 0 && (m.None? || m.value.start > 0) ==> !StartsRoot(s, 0)
    decreases |s| - from
  {
    if from == |s| then None
    else if IsChainOpener(s[from]) && from + 1 < |s| && IsNameStart(s[from + 1]) then
      Some(Capture(from + 1, RunEnd(s, from + 2)))
    else if from == 0 && IsNameStart(s[0]) then Some(Capture(0, RunEnd(s, 1)))
    else ExecName(s, from + 1)
  }

  /** What the `exec` loop collects from `lastIndex == from` on. */
  function ExecNames(s: string, from: nat): seq<string>
    requires from <= |s|
    decreases |s| - from
  {
    match ExecName(s, from)
    case None => []
    case Some(c) => [s[c.start..c.end]] + ExecNames(s, c.end)
  }

  /** The reference definition: the name at every position where a name
      starts, in order of position (duplicates kept). */
  function RootNames(s: string, i: nat): seq<string>
    requires i <= |s|
    decreases |s| - i
  {
    if i == |s| then []
    else (if StartsRoot(s, i) then [NameAt(s, i)] else []) + RootNames(s, i + 1)
  }

  /** The run of name characters from `i` ends at `j` when every character
      before `j` is one and the one at `j` (if any) is not. */
  lemma RunEndAt(s: string, i: nat, j: nat)
    requires i <= j <= |s|
    requires forall k :: i <= k < j ==> IsNamePart(s[k])
    requires j < |s| ==> !IsNamePart(s[j])
    ensures RunEnd(s, i) == j
  {
  }

  /** Positions without a name start contribute nothing. */
  lemma {:induction false} RootNamesSkip(s: string, i: nat, j: nat)
    requires i <= j <= |s|
    requires forall g :: i <= g < j ==> !StartsRoot(s, g)
    ensures RootNames(s, i) == RootNames(s, j)
    decreases j - i
  {
    if i < j {
      RootNamesSkip(s, i + 1, j);
    }
  }

  /** No name starts inside a name: its characters are no chain openers. */
  lemma NoStartInsideName(s: string, g: nat)
    requires StartsRoot(s, g)
    ensures forall k :: g + 1 <= k <= RunEnd(s, g + 1) ==> k == |s| || !StartsRoot(s, k)
  {
    forall k | g + 1 <= k <= RunEnd(s, g + 1) && k < |s| ensures !StartsRoot(s, k) {
      assert IsNamePart(s[k - 1]) || k - 1 == g;
    }
  }

  /** The names from a name start are that name followed by the names after it. */
  lemma RootNamesAtName(s: string, g: nat)
    requires StartsRoot(s, g)
    ensures RootNames(s, g) == [NameAt(s, g)] + RootNames(s, RunEnd(s, g + 1))
  {
    assert RootNames(s, g) == [NameAt(s, g)] + RootNames(s, g + 1);
    NoStartInsideName(s, g);
    RootNamesSkip(s, g + 1, RunEnd(s, g + 1));
  }

  /** A name starts at `g` and its run of name characters ends at `e`. */
  predicate NameRun(s: string, g: nat, e: nat)
  {
    && g < e <= |s| && StartsRoot(s, g)
    && (forall k :: g < k < e ==> IsNamePart(s[k]))
    && (e < |s| ==> !IsNamePart(s[e]))
  }

  /** The names from the start of a run are the run followed by the names
      after it. */
  lemma NameRunRoots(s: string, g: nat, e: nat)
    requires NameRun(s, g, e)
    ensures RootNames(s, g) == [s[g..e]] + RootNames(s, e)
  {
    RunEndAt(s, g + 1, e);
    RootNamesAtName(s, g);
  }

  /** One match of the loop: the names from `from` are the name the match
      captures followed by the names after it. */
  lemma RootNamesStep(s: string, from: nat, g: nat, e: nat)
    requires from <= |s| && ExecName(s, from) == Some(Capture(g, e))
    requires from > 0 ==> !StartsRoot(s, from)
    ensures g < e <= |s|
    ensures RootNames(s, from) == [s[g..e]] + RootNames(s, e)
  {
    assert e == RunEnd(s, g + 1) && NameAt(s, g) == s[g..e];
    RootNamesSkip(s, from, g);
    RootNamesAtName(s, g);
  }

  /** The `exec` loop finds exactly the names of the reference definition:
      since a name ends on a name character, which is no chain opener, no
      name start is ever hidden inside an earlier match. */
  lemma {:induction false} ExecNamesAreRootNames(s: string, from: nat)
    requires from <= |s|
    requires from > 0 ==> !StartsRoot(s, from)
    ensures ExecNames(s, from) == RootNames(s, from)
    decreases |s| - from
  {
    var m := ExecName(s, from);
    if m.None? {
      RootNamesSkip(s, from, |s|);
    } else {
      var g, e := m.value.start, m.value.end;
      RootNamesStep(s, from, g, e);
      NoStartInsideName(s, g);
      ExecNamesAreRootNames(s, e);
    }
  }

  /** Every collected name is a run that starts with a name-start character
      and goes on with name characters up to a character that is not one (or
      the end), and starts at the beginning or right after a chain opener:
      `user.name` yields `user` only. */
  predicate IsRootNameOf(s: string, n: string)
  {
    exists g :: 0 <= g < |s| && StartsRoot(s, g) && n == NameAt(s, g)
  }

  lemma RootNamesShape(s: string, i: nat)
    requires i <= |s|
    ensures forall n :: n in RootNames(s, i) ==> IsRootNameOf(s, n)
    ensures forall k :: 0 <= k < |RootNames(s, i)| ==> IsName(RootNames(s, i)[k])
    ensures forall g :: i <= g < |s| && StartsRoot(s, g) ==> NameAt(s, g) in RootNames(s, i)
  {
    RootNamesSound(s, i);
    RootNamesComplete(s, i);
  }

  /** Every collected name is a well-formed root name of `s`. */
  lemma {:induction false} RootNamesSound(s: string, i: nat)
    requires i <= |s|
    ensures forall k :: 0 <= k < |RootNames(s, i)| ==>
      IsRootNameOf(s, RootNames(s, i)[k]) && IsName(RootNames(s, i)[k])
    decreases |s| - i
  {
    if i < |s| {
      RootNamesSound(s, i + 1);
      if StartsRoot(s, i) {
        NameAtIsName(s, i);
        assert RootNames(s, i) == [NameAt(s, i)] + RootNames(s, i + 1);
      }
    }
  }

  /** Every root name of `s` from `i` on is collected. */
  lemma {:induction false} RootNamesComplete(s: string, i: nat)
    requires i <= |s|
    ensures forall g :: i <= g < |s| && StartsRoot(s, g) ==> NameAt(s, g) in RootNames(s, i)
    decreases |s| - i
  {
    if i < |s| {
      RootNamesComplete(s, i + 1);
      var head := if StartsRoot(s, i) then [NameAt(s, i)] else [];
      assert RootNames(s, i) == head + RootNames(s, i + 1);
    }
  }

  /** The name at a root start is a well-formed root name. */
  lemma NameAtIsName(s: string, g: nat)
    requires StartsRoot(s, g)
    ensures IsName(NameAt(s, g)) && IsRootNameOf(s, NameAt(s, g))
  {
    var n := NameAt(s, g);
    assert n[0] == s[g];
    forall k | 1 <= k < |n| ensures IsNamePart(n[k]) { assert n[k] == s[g + k]; }
  }

  /** A well-formed name: non-empty, a name-start character, then name characters. */
  predicate IsName(n: string)
  {
    n != [] && IsNameStart(n[0]) && forall k :: 1 <= k < |n| ==> IsNamePart(n[k])
  }

  // ---------------------------------------------------------------------
  // parseIdentifiers
  // ---------------------------------------------------------------------

  /** The identifiers of a list of statements: statement by statement, the
      root names of the statement with its quoted strings cut out. */
  function IdentifiersOf(statements: seq<string>): seq<string>
  {
    if statements == [] then []
    else
      var last := statements[|statements| - 1];
      IdentifiersOf(statements[..|statements| - 1]) + RootNames(StripQuoted(last), 0)
  }

  /** `parseIdentifiers`: for each statement, cut out its quoted strings and
      push every name `exec` finds; `exec` resets `lastIndex` to 0 when it
      fails, so each statement is scanned from its start. */
  method ParseIdentifiers(statements: seq<string>) returns (identifiers: seq<string>)
    ensures identifiers == IdentifiersOf(statements)
  {
    identifiers := [];
    for n := 0 to |statements|
      invariant identifiers == IdentifiersOf(statements[..n])
    {
      var statement := StripQuoted(statements[n]);
      var lastIndex := 0;
      ExecNamesAreRootNames(statement, 0);
      while true
        invariant lastIndex <= |statement|
        invariant identifiers + ExecNames(statement, lastIndex)
          == IdentifiersOf(statements[..n]) + RootNames(statement, 0)
        decreases |statement| - lastIndex
      {
        var m := ExecName(statement, lastIndex);
        if m.None? {
          break;
        }
        identifiers := identifiers + [statement[m.value.start..m.value.end]];
        lastIndex := m.value.end;
      }
      assert statements[..n + 1][..n] == statements[..n];
    }
    assert statements[..|statements|] == statements;
  }

  /** A statement reading a property of an object yields the object only:
      `user.name` gives `user`, since the `.` before `name` is no chain opener. */
  lemma UserNameYieldsUser()
    ensures IdentifiersOf(["user.name"]) == ["user"]
  {
    StripWithoutQuotes("user.name", 0);
    UserNameRoots();
    assert ["user.name"][..0] == [];
  }

  lemma UserNameRoots()
    ensures RootNames("user.name", 0) == ["user"]
  {
    var s := "user.name";
    assert RunEnd(s, 4) == 4;
    assert RunEnd(s, 1) == 4;
    assert StartsRoot(s, 0) && NameAt(s, 0) == "user";
    forall g | 1 <= g < |s| ensures !StartsRoot(s, g) {
      assert !IsChainOpener(s[g - 1]);
    }
    RootNamesSkip(s, 1, |s|);
  }

  /** The statements of the template
      `[{Date.now()}] hello, {firstName + ' ' + middleName} {lastName + ', bye~'}`:
      the quoted strings are cut out and the name after `.` is no root, so
      the parameters are the four root names in order. */
  lemma TestTemplateIdentifiers()
    ensures IdentifiersOf(["Date.now()", "firstName + ' ' + middleName", "lastName + ', bye~'"])
      == ["Date", "firstName", "middleName", "lastName"]
  {
    DateNowRoots();
    FullNameRoots();
    ByeRoots();
    IdentifiersOfThree("Date.now()", "firstName + ' ' + middleName", "lastName + ', bye~'");
  }

  /** The identifiers of three statements, statement by statement. */
  lemma IdentifiersOfThree(a: string, b: string, c: string)
    ensures IdentifiersOf([a, b, c])
      == RootNames(StripQuoted(a), 0) + RootNames(StripQuoted(b), 0) + RootNames(StripQuoted(c), 0)
  {
    assert [a, b, c][..2] == [a, b];
    assert [a, b][..1] == [a];
    assert [a][..0] == [];
    assert IdentifiersOf([a]) == RootNames(StripQuoted(a), 0);
    assert IdentifiersOf([a, b]) == IdentifiersOf([a]) + RootNames(StripQuoted(b), 0);
    assert IdentifiersOf([a, b, c]) == IdentifiersOf([a, b]) + RootNames(StripQuoted(c), 0);
  }

  lemma DateNowRoots()
    ensures RootNames(StripQuoted("Date.now()"), 0) == ["Date"]
  {
    var s := "Date.now()";
    StripWithoutQuotes(s, 0);
    assert StripQuoted(s) == s;
    NamesOfDateNow();
  }

  lemma NamesOfDateNow()
    ensures RootNames("Date.now()", 0) == ["Date"]
  {
    var s := "Date.now()";
    DateNowShape(s);
    NameRunRoots(s, 0, 4);
    RootNamesSkip(s, 4, |s|);
    assert s[0..4] == "Date";
  }

  /** `Date` is a name; `now` follows a `.` and `)` is no name start. */
  lemma DateNowShape(s: string)
    requires s == "Date.now()"
    ensures NameRun(s, 0, 4)
    ensures forall g :: 4 <= g < |s| ==> !StartsRoot(s, g)
  {
    forall k | 0 < k < 4 ensures IsNamePart(s[k]) {
      assert k == 1 || k == 2 || k == 3;
    }
    forall g | 4 <= g < |s| ensures !StartsRoot(s, g) {
      assert g == 4 || g == 5 || g == 6 || g == 7 || g == 8 || g == 9;
    }
  }

  lemma FullNameRoots()
    ensures RootNames(StripQuoted("firstName + ' ' + middleName"), 0) == ["firstName", "middleName"]
  {
    StripFullName();
    NamesOfFullName("firstName + + middleName");
  }

  /** The quoted blank ` ' '`, with the space before it, is cut out. */
  lemma StripFullName()
    ensures StripQuoted("firstName + ' ' + middleName") == "firstName + + middleName"
  {
    var s := "firstName + ' ' + middleName";
    StripAroundBlank(s);
    FullNamePieces(s);
  }

  lemma StripAroundBlank(s: string)
    requires s == "firstName + ' ' + middleName"
    ensures StripFrom(s, 0) == s[0..11] + s[15..]
  {
    NoQuoteBeforeBlank();
    StripUpTo(s, 0, 11);
    QuotedBlank();
    StripWithoutQuotes(s, 15);
    assert StripFrom(s, 11) == StripFrom(s, 15);
  }

  lemma FullNamePieces(s: string)
    requires s == "firstName + ' ' + middleName"
    ensures s[0..11] + s[15..] == "firstName + + middleName"
  {
    assert s[0..11] == "firstName +";
    assert s[15..] == " + middleName";
  }

  lemma NoQuoteBeforeBlank()
    ensures forall y :: 0 <= y < 11 ==> QuotedAt("firstName + ' ' + middleName", y).None?
  {
    var s := "firstName + ' ' + middleName";
    forall y | 0 <= y < 11 ensures QuotedAt(s, y).None? {
      assert !IsQuote(s[y + 1]) by {
        assert y == 0 || y == 1 || y == 2 || y == 3 || y == 4 || y == 5
          || y == 6 || y == 7 || y == 8 || y == 9 || y == 10;
      }
    }
  }

  lemma QuotedBlank()
    ensures QuotedAt("firstName + ' ' + middleName", 11) == Some(15)
    ensures forall k :: 15 <= k < 28 ==> !IsQuote("firstName + ' ' + middleName"[k])
  {
    var s := "firstName + ' ' + middleName";
    assert CloseQuote(s, '\'', 13) == Some(15);
    forall k | 15 <= k < 28 ensures !IsQuote(s[k]) {
      assert k == 15 || k == 16 || k == 17 || k == 18 || k == 19 || k == 20 || k == 21
        || k == 22 || k == 23 || k == 24 || k == 25 || k == 26 || k == 27;
    }
  }

  lemma NamesOfFullName(t: string)
    requires t == "firstName + + middleName"
    ensures RootNames(t, 0) == ["firstName", "middleName"]
  {
    FirstNameRun(t);
    BetweenNames(t);
    MiddleNameRun(t);
    NameRunRoots(t, 0, 9);
    RootNamesSkip(t, 9, 14);
    NameRunRoots(t, 14, 24);
    assert RootNames(t, 24) == [];
    assert t[0..9] == "firstName" && t[14..24] == "middleName";
  }

  lemma FirstNameRun(t: string)
    requires t == "firstName + + middleName"
    ensures NameRun(t, 0, 9)
  {
    forall k | 0 < k < 9 ensures IsNamePart(t[k]) {
      assert k == 1 || k == 2 || k == 3 || k == 4 || k == 5 || k == 6 || k == 7 || k == 8;
    }
  }

  lemma MiddleNameRun(t: string)
    requires t == "firstName + + middleName"
    ensures NameRun(t, 14, 24)
  {
    forall k | 14 < k < 24 ensures IsNamePart(t[k]) {
      assert k == 15 || k == 16 || k == 17 || k == 18 || k == 19 || k == 20 || k == 21
        || k == 22 || k == 23;
    }
  }

  /** The operators `+` are no names. */
  lemma BetweenNames(t: string)
    requires t == "firstName + + middleName"
    ensures forall g :: 9 <= g < 14 ==> !StartsRoot(t, g)
  {
    forall g | 9 <= g < 14 ensures !StartsRoot(t, g) {
      assert g == 9 || g == 10 || g == 11 || g == 12 || g == 13;
    }
  }

  lemma ByeRoots()
    ensures RootNames(StripQuoted("lastName + ', bye~'"), 0) == ["lastName"]
  {
    StripBye();
    NamesOfBye();
  }

  /** The quoted `', bye~'`, with the space before it, is cut out. */
  lemma StripBye()
    ensures StripQuoted("lastName + ', bye~'") == "lastName +"
  {
    var s := "lastName + ', bye~'";
    NoQuoteBeforeBye();
    StripUpTo(s, 0, 10);
    QuotedBye();
    assert StripFrom(s, 10) == StripFrom(s, 19) == [];
    assert s[0..10] == "lastName +";
  }

  lemma NoQuoteBeforeBye()
    ensures forall y :: 0 <= y < 10 ==> QuotedAt("lastName + ', bye~'", y).None?
  {
    var s := "lastName + ', bye~'";
    forall y | 0 <= y < 10 ensures QuotedAt(s, y).None? {
      assert !IsQuote(s[y + 1]) by {
        assert y == 0 || y == 1 || y == 2 || y == 3 || y == 4 || y == 5
          || y == 6 || y == 7 || y == 8 || y == 9;
      }
    }
  }

  lemma QuotedBye()
    ensures QuotedAt("lastName + ', bye~'", 10) == Some(19)
  {
    var s := "lastName + ', bye~'";
    assert CloseQuote(s, '\'', 17) == Some(19);
    assert CloseQuote(s, '\'', 16) == Some(19);
    assert CloseQuote(s, '\'', 15) == Some(19);
    assert CloseQuote(s, '\'', 14) == Some(19);
    assert CloseQuote(s, '\'', 13) == Some(19);
    assert CloseQuote(s, '\'', 12) == Some(19);
  }

  lemma NamesOfBye()
    ensures RootNames("lastName +", 0) == ["lastName"]
  {
    var t := "lastName +";
    LastNameRun(t);
    NameRunRoots(t, 0, 8);
    RootNamesSkip(t, 8, |t|);
    assert t[0..8] == "lastName";
  }

  lemma LastNameRun(t: string)
    requires t == "lastName +"
    ensures NameRun(t, 0, 8) && !StartsRoot(t, 8) && !StartsRoot(t, 9)
  {
    forall k | 0 < k < 8 ensures IsNamePart(t[k]) {
      assert k == 1 || k == 2 || k == 3 || k == 4 || k == 5 || k == 6 || k == 7;
    }
  }

  /** Everything `parseIdentifiers` returns is a well-formed name. */
  lemma {:induction false} IdentifiersAreNames(statements: seq<string>)
    ensures forall k :: 0 <= k < |IdentifiersOf(statements)| ==> IsName(IdentifiersOf(statements)[k])
    decreases |statements|
  {
    if statements != [] {
      IdentifiersAreNames(statements[..|statements| - 1]);
      RootNamesShape(StripQuoted(statements[|statements| - 1]), 0);
    }
  }
}
