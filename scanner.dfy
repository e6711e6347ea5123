/** The placeholder scanner of the template compiler: the regular expression
    `/\{([^\}]+)\}/g` of src/template/parser.ts driven by `exec` and
    `lastIndex`, written out as a scanner over the characters of the
    (normalised) template, and the split of a template into literal gaps and
    placeholders that the compile loop walks through. */
module Scanner {
  import opened Wrappers

  /** Index of the first `}` at or after `i`, or `|t|` when there is none. */
  function NextClose(t: string, i: nat): (j: nat)
    requires i <= |t|
    ensures i <= j <= |t|
    ensures j < |t| ==> t[j] == '}'
    ensures forall k :: i <= k < j ==> t[k] != '}'
    decreases |t| - i
  {
    if i == |t| || t[i] == '}' then i else NextClose(t, i + 1)
  }

  /** Whether the pattern matches starting at `p`: a `{` whose next `}` is at
      least two characters further on (the group `[^\}]+` needs one character,
      and the greedy group cannot end anywhere but before that `}`). */
  predicate MatchesAt(t: string, p: nat)
  {
    p + 1 < |t| && t[p] == '{' && p + 2 <= NextClose(t, p + 1) < |t|
  }

  /** A successful `exec`: `index` is `match.index`, `end` is the new `lastIndex`. */
  datatype Match = Match(index: nat, end: nat)

  /** `templateStatementRegex.exec(t)` with `lastIndex == from`: the leftmost
      match at or after `from`, or none. */
  function Exec(t: string, from: nat): (m: Option<Match>)
    requires from <= |t|
    ensures m.Some? ==>
      && from <= m.value.index && MatchesAt(t, m.value.index)
      && m.value.end == NextClose(t, m.value.index + 1) + 1
    decreases |t| - from
  {
    if from == |t| then None
    else if MatchesAt(t, from) then Some(Match(from, NextClose(t, from + 1) + 1))
    else Exec(t, from + 1)
  }

  /** A match found by `exec` is a `{`, a non-empty run, and a `}`. */
  lemma ExecShape(t: string, from: nat)
    requires from <= |t| && Exec(t, from).Some?
    ensures var m := Exec(t, from).value;
      && m.index + 3 <= m.end <= |t|
      && t[m.index] == '{' && t[m.end - 1] == '}'
  {
  }

  /** The run between the braces of a match holds no `}`. */
  lemma ExecSourceHasNoClose(t: string, from: nat)
    requires from <= |t| && Exec(t, from).Some?
    ensures var m := Exec(t, from).value;
      m.index + 3 <= m.end <= |t| && '}' !in t[m.index + 1..m.end - 1]
  {
    var m := Exec(t, from).value;
    var src := t[m.index + 1..m.end - 1];
    forall k | 0 <= k < |src| ensures src[k] != '}' { assert src[k] == t[m.index + 1 + k]; }
  }

  /** `exec` finds the leftmost match: none starts between `from` and the one
      it returns (or the end of the text when it returns none). */
  lemma {:induction false} ExecLeftmost(t: string, from: nat)
    requires from <= |t|
    ensures var m := Exec(t, from);
      forall p :: from <= p < (if m.Some? then m.value.index else |t|) ==> !MatchesAt(t, p)
    decreases |t| - from
  {
    if from < |t| && !MatchesAt(t, from) {
      ExecLeftmost(t, from + 1);
    }
  }

  /** `exec` returns the first position from `from` on where the pattern
      matches. */
  lemma ExecFinds(t: string, from: nat, p: nat)
    requires from <= p < |t| && MatchesAt(t, p)
    requires forall q :: from <= q < p ==> !MatchesAt(t, q)
    ensures Exec(t, from) == Some(Match(p, NextClose(t, p + 1) + 1))
  {
    ExecLeftmost(t, from);
    var m := Exec(t, from);
    assert m.Some?;
    assert m.value.index == p;
  }

  /** A piece of the template: literal text, or a placeholder holding the
      source text strictly between its braces. */
  datatype Span = Literal(text: string) | Placeholder(source: string)

  /** The template from `from` on, split into literal gaps and placeholders
      the way the compile loop consumes it: each match contributes the gap
      before it and itself; the text after the last match is the final gap. */
  function Spans(t: string, from: nat): seq<Span>
    requires from <= |t|
    decreases |t| - from
  {
    match Exec(t, from)
    case None => [Literal(t[from..])]
    case Some(m) => [Literal(t[from..m.index]), Placeholder(t[m.index + 1..m.end - 1])] + Spans(t, m.end)
  }

  /** The original text of a span: a placeholder gets its braces back. */
  function SpanText(s: Span): string
  {
    match s
    case Literal(x) => x
    case Placeholder(src) => "{" + src + "}"
  }

  function Concat(spans: seq<Span>): string
  {
    if spans == [] then [] else SpanText(spans[0]) + Concat(spans[1..])
  }

  /** The spans alternate, literal gap first and last, and every placeholder
      holds a non-empty source without a `}`. */
  predicate WellFormed(spans: seq<Span>)
  {
    && |spans| % 2 == 1
    && (forall i :: 0 <= i < |spans| ==> (spans[i].Literal? <==> i % 2 == 0))
    && (forall i :: 0 <= i < |spans| && spans[i].Placeholder? ==>
          spans[i].source != [] && '}' !in spans[i].source)
  }

  /** Every `{` of a literal gap is either the first half of an empty pair
      `{}` or has no `}` anywhere after it: a `{}` is not a placeholder and an
      unterminated `{` stays literal text. */
  predicate LiteralBraces(x: string)
  {
    forall p :: 0 <= p < |x| && x[p] == '{' ==> (p + 1 < |x| && x[p + 1] == '}') || '}' !in x[p + 1..]
  }

  lemma ConcatTwo(a: Span, b: Span, rest: seq<Span>)
    ensures Concat([a, b] + rest) == SpanText(a) + SpanText(b) + Concat(rest)
  {
    var spans := [a, b] + rest;
    assert spans[1..] == [b] + rest;
    assert spans[1..][1..] == rest;
  }

  /** One step of the partition: a match contributes its gap and its
      placeholder, in front of the spans after it. */
  lemma PartitionStep(t: string, from: nat, i: nat, e: nat)
    requires from <= |t| && Exec(t, from) == Some(Match(i, e))
    requires e <= |t| && Concat(Spans(t, e)) == t[e..]
    ensures Concat(Spans(t, from)) == t[from..]
  {
    SpansStep(t, from, i, e);
    ExecShape(t, from);
    var gap, src := t[from..i], t[i + 1..e - 1];
    SplitAtMatch(t, from, i, e);
    ConcatTwo(Literal(gap), Placeholder(src), Spans(t, e));
    assert SpanText(Placeholder(src)) == "{" + src + "}";
  }

  /** Cutting the text around a brace pair `{..}` found at `i`. */
  lemma SplitAtMatch(t: string, from: nat, i: nat, e: nat)
    requires from <= i && i + 2 <= e <= |t| && t[i] == '{' && t[e - 1] == '}'
    ensures t[from..] == t[from..i] + ("{" + t[i + 1..e - 1] + "}") + t[e..]
  {
    assert t[i..e] == "{" + t[i + 1..e - 1] + "}";
    assert t[from..] == t[from..i] + t[i..e] + t[e..];
  }

  /** The spans partition the text left to right: put back together they are
      the template from `from` on. */
  lemma {:induction false} SpansPartition(t: string, from: nat)
    requires from <= |t|
    ensures Concat(Spans(t, from)) == t[from..]
    decreases |t| - from
  {
    var m := Exec(t, from);
    if m.None? {
      assert Spans(t, from) == [Literal(t[from..])];
      assert Concat(Spans(t, from)) == t[from..] + Concat([]);
    } else {
      SpansPartition(t, m.value.end);
      PartitionStep(t, from, m.value.index, m.value.end);
    }
  }

  /** For the `exec` match `Match(i, j)`, its gap and its placeholder come
      next in the spans. */
  lemma SpansStep(t: string, from: nat, i: nat, j: nat)
    requires from <= |t| && Exec(t, from) == Some(Match(i, j))
    ensures from <= i && i + 3 <= j <= |t|
    ensures Spans(t, from) == [Literal(t[from..i]), Placeholder(t[i + 1..j - 1])] + Spans(t, j)
  {
    ExecShape(t, from);
  }

  /** The spans of any text are well formed. */
  lemma {:induction false} SpansWellFormed(t: string, from: nat)
    requires from <= |t|
    ensures WellFormed(Spans(t, from))
    decreases |t| - from
  {
    match Exec(t, from)
    case None =>
      assert Spans(t, from) == [Literal(t[from..])];
    case Some(m) =>
      SpansStep(t, from, m.index, m.end);
      SpansWellFormed(t, m.end);
      WellFormedStep(t, from, m.index, m.end);
  }

  /** The induction step of `SpansWellFormed` for the match `Match(i, j)`. */
  lemma WellFormedStep(t: string, from: nat, i: nat, j: nat)
    requires from <= |t| && Exec(t, from) == Some(Match(i, j))
    requires j <= |t| && WellFormed(Spans(t, j))
    ensures WellFormed(Spans(t, from))
  {
    SpansStep(t, from, i, j);
    ExecSourceHasNoClose(t, from);
    WellFormedCons(Literal(t[from..i]), Placeholder(t[i + 1..j - 1]), Spans(t, j), Spans(t, from));
  }

  /** A gap and a placeholder with a non-empty, brace-free source in front of
      well-formed spans keep them well formed. */
  lemma WellFormedCons(gap: Span, p: Span, rest: seq<Span>, spans: seq<Span>)
    requires gap.Literal? && p.Placeholder? && p.source != [] && '}' !in p.source
    requires WellFormed(rest) && spans == [gap, p] + rest
    ensures WellFormed(spans)
  {
    forall i | 2 <= i < |spans| ensures spans[i] == rest[i - 2] { }
  }

  /** The text of the template between `from` and `to` holds no brace that
      could open a placeholder, given that no match starts there and `to` is
      the end of the text or the start of a match. */
  lemma GapBraces(t: string, from: nat, to: nat)
    requires from <= to <= |t|
    requires forall p :: from <= p < to ==> !MatchesAt(t, p)
    requires to < |t| ==> MatchesAt(t, to)
    ensures LiteralBraces(t[from..to])
  {
    var x := t[from..to];
    forall p | 0 <= p < |x| && x[p] == '{'
      ensures (p + 1 < |x| && x[p + 1] == '}') || '}' !in x[p + 1..]
    {
      var q := from + p;
      assert t[q] == '{' && !MatchesAt(t, q);
      if q + 1 < |t| {
        var j := NextClose(t, q + 1);
        if j == q + 1 {
          if to < |t| {
            assert NextClose(t, to + 1) < |t|;
            assert t[to] == '{';
          }
          assert x[p + 1] == t[q + 1];
        } else {
          assert j == |t|;
          forall k | p + 1 <= k < |x| ensures x[k] != '}' { assert x[k] == t[from + k]; }
        }
      }
    }
  }

  /** In the spans of any text, every literal gap satisfies `LiteralBraces`. */
  lemma {:induction false} SpansLiteralBraces(t: string, from: nat)
    requires from <= |t|
    ensures forall i :: 0 <= i < |Spans(t, from)| && Spans(t, from)[i].Literal? ==>
      LiteralBraces(Spans(t, from)[i].text)
    decreases |t| - from
  {
    var m := Exec(t, from);
    if m.None? {
      assert Spans(t, from) == [Literal(t[from..])];
      assert t[from..] == t[from..|t|];
      ExecLeftmost(t, from);
      GapBraces(t, from, |t|);
    } else {
      var rest := Spans(t, m.value.end);
      SpansLiteralBraces(t, m.value.end);
      ExecLeftmost(t, from);
      GapBraces(t, from, m.value.index);
      var spans := Spans(t, from);
      assert spans == [Literal(t[from..m.value.index]), Placeholder(t[m.value.index + 1..m.value.end - 1])] + rest;
      forall i | 2 <= i < |spans| ensures spans[i] == rest[i - 2] { }
    }
  }

  /** A text in which the scanner finds no placeholder is a single literal gap. */
  lemma NoPlaceholderSpans(t: string)
    requires Exec(t, 0).None?
    ensures Spans(t, 0) == [Literal(t)]
  {
    assert t[0..] == t;
  }
}
