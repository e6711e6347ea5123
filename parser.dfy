/** The template compiler `parse` of src/template/parser.ts: the compile loop
    that turns a normalised template into the body of a JavaScript function
    (`parsedTemplate`) and a table of the distinct expressions
    (`statementMapping`), the object it returns, and the module-level
    single-slot cache with its lazy "identifiers later" upgrade. */
module Parser {
  import opened Wrappers
  import opened JsText
  import opened Escaping
  import opened Scanner
  import opened Identifiers

  // ---------------------------------------------------------------------
  // What a compilation produces, as functions of the normalised template
  // ---------------------------------------------------------------------

  /** The code spliced in for an expression: it closes the single-quoted
      literal, evaluates `(expr) || 'default'`, and opens the literal again.
      The default value is inserted as plain text. */
  function StatementCode(expr: string, defaultValue: string): string
  {
    "' + ((" + expr + ") || '" + defaultValue + "') + '"
  }

  /** The trimmed expression of a placeholder; empty for literal text. */
  function ExpressionOf(s: Span): string
  {
    if s.Placeholder? then Trim(s.source) else []
  }

  /** What one span adds to the program: escaped literal text, the code of a
      non-empty expression, nothing for a blank placeholder. */
  function EmitSpan(s: Span, defaultValue: string): string
  {
    match s
    case Literal(x) => EscapeSingleQuotes(x)
    case Placeholder(_) =>
      if ExpressionOf(s) == [] then [] else StatementCode(ExpressionOf(s), defaultValue)
  }

  function Emit(spans: seq<Span>, defaultValue: string): string
  {
    if spans == [] then []
    else Emit(spans[..|spans| - 1], defaultValue) + EmitSpan(spans[|spans| - 1], defaultValue)
  }

  const ProgramPrefix: string := "return '"

  /** The program compiled from a normalised template: `return '`, the spans'
      contributions from left to right, and a closing `'`. */
  function ProgramOf(t: string, defaultValue: string): string
  {
    ProgramPrefix + Emit(Spans(t, 0), defaultValue) + "'"
  }

  /** The distinct non-empty expressions of the spans, in order of first occurrence. */
  function KeysOf(spans: seq<Span>): seq<string>
  {
    if spans == [] then []
    else
      var keys := KeysOf(spans[..|spans| - 1]);
      var e := ExpressionOf(spans[|spans| - 1]);
      if e == [] || e in keys then keys else keys + [e]
  }

  /** `statementMapping`: its own keys in insertion order, and the entries. */
  datatype StatementMapping = StatementMapping(keys: seq<string>, entries: map<string, string>)

  const EmptyMapping: StatementMapping := StatementMapping([], map[])

  /** The entries are exactly the keys, each holding the code of its
      expression for the default value `d`. */
  predicate MapsTo(m: StatementMapping, d: string)
  {
    && (forall k :: k in m.entries ==> k in m.keys)
    && (forall k :: k in m.keys ==> k in m.entries)
    && (forall k :: k in m.entries ==> m.entries[k] == StatementCode(k, d))
  }

  // ---------------------------------------------------------------------
  // Properties of the compiled form
  // ---------------------------------------------------------------------

  lemma EmitTwo(done: seq<Span>, a: Span, b: Span, d: string)
    ensures Emit(done + [a, b], d) == Emit(done, d) + EmitSpan(a, d) + EmitSpan(b, d)
  {
    var x, y := done + [a, b], done + [a];
    assert x[..|x| - 1] == y && x[|x| - 1] == b;
    assert y[..|y| - 1] == done && y[|y| - 1] == a;
    assert Emit(x, d) == Emit(y, d) + EmitSpan(b, d);
    assert Emit(y, d) == Emit(done, d) + EmitSpan(a, d);
  }

  /** Each expression is recorded once: the keys never repeat. */
  lemma {:induction false} KeysDistinct(spans: seq<Span>)
    ensures forall i, j :: 0 <= i < j < |KeysOf(spans)| ==> KeysOf(spans)[i] != KeysOf(spans)[j]
    decreases |spans|
  {
    if spans != [] {
      KeysDistinct(spans[..|spans| - 1]);
    }
  }

  /** Some placeholder of the spans has the trimmed expression `x`. */
  ghost predicate Occurs(spans: seq<Span>, x: string)
  {
    exists i :: 0 <= i < |spans| && ExpressionOf(spans[i]) == x
  }

  lemma OccursSplit(spans: seq<Span>, x: string)
    requires spans != []
    ensures Occurs(spans, x) <==>
      Occurs(spans[..|spans| - 1], x) || ExpressionOf(spans[|spans| - 1]) == x
  {
    var init := spans[..|spans| - 1];
    if Occurs(spans, x) {
      var i :| 0 <= i < |spans| && ExpressionOf(spans[i]) == x;
      if i < |init| { assert ExpressionOf(init[i]) == x; }
    }
    if Occurs(init, x) {
      var i :| 0 <= i < |init| && ExpressionOf(init[i]) == x;
      assert ExpressionOf(spans[i]) == x;
    }
  }

  /** The keys are exactly the distinct non-empty trimmed expressions of the
      placeholders: every one of them is a key, and nothing else is. */
  lemma {:induction false} KeysExact(spans: seq<Span>, x: string)
    ensures x in KeysOf(spans) <==> x != [] && Occurs(spans, x)
    decreases |spans|
  {
    if spans != [] {
      KeysExact(spans[..|spans| - 1], x);
      OccursSplit(spans, x);
    }
  }

  /** Every key of a compiled template is an expression as the source gives
      it: non-empty, trimmed, and free of `}`. */
  lemma KeysOfTemplate(t: string, k: string)
    requires k in KeysOf(Spans(t, 0))
    ensures k != [] && !IsSpace(k[0]) && !IsSpace(k[|k| - 1]) && '}' !in k
  {
    var spans := Spans(t, 0);
    KeysExact(spans, k);
    SpansWellFormed(t, 0);
    var i :| 0 <= i < |spans| && ExpressionOf(spans[i]) == k;
    TrimSpec(spans[i].source);
    if '}' in k { TrimChars(spans[i].source, '}'); }
  }

  /** A template without placeholders compiles to one escaped literal, from
      which `UnescapeSingleQuotes` (undoing exactly the inserted backslashes,
      which is not how JavaScript reads a `\\'`) gives back the template. */
  lemma LiteralTemplateProgram(t: string, d: string)
    requires Exec(t, 0).None?
    ensures ProgramOf(t, d) == ProgramPrefix + EscapeSingleQuotes(t) + "'"
    ensures UnescapeSingleQuotes(ProgramOf(t, d)[|ProgramPrefix|..|ProgramOf(t, d)| - 1]) == t
    ensures KeysOf(Spans(t, 0)) == []
  {
    NoPlaceholderSpans(t);
    assert [Literal(t)][..0] == [];
    assert Emit([Literal(t)], d) == EscapeSingleQuotes(t);
    var p := ProgramOf(t, d);
    assert p[|ProgramPrefix|..|p| - 1] == EscapeSingleQuotes(t);
    EscapeRoundTrip(t);
  }

  // ---------------------------------------------------------------------
  // The compile loop and its specification
  // ---------------------------------------------------------------------

  /** The keys grow by the expression of a placeholder if it is new. */
  lemma KeysStep(done: seq<Span>, gap: Span, p: Span)
    requires gap.Literal?
    ensures KeysOf(done + [gap, p]) ==
      var keys, e := KeysOf(done), ExpressionOf(p);
      if e == [] || e in keys then keys else keys + [e]
  {
    var withGap := done + [gap];
    assert withGap[..|done|] == done;
    assert KeysOf(withGap) == KeysOf(done) by {
      assert ExpressionOf(withGap[|withGap| - 1]) == [];
    }
    var all := done + [gap, p];
    assert all[..|all| - 1] == withGap;
    assert all[|all| - 1] == p;
  }

  /** One turn of the compile loop, in the shape the loop builds its state:
      the program grows by the escaped gap and the code of a non-blank
      expression, the keys by a new expression. */
  lemma EmitAdvance(done: seq<Span>, gap: string, src: string, d: string)
    ensures var next := done + [Literal(gap), Placeholder(src)];
      Turn(ProgramPrefix + Emit(done, d), KeysOf(done), gap, Trim(src), d)
      == (ProgramPrefix + Emit(next, d), KeysOf(next))
  {
    EmitTwo(done, Literal(gap), Placeholder(src), d);
    KeysStep(done, Literal(gap), Placeholder(src));
    TurnAppends(ProgramPrefix, Emit(done, d), KeysOf(done), gap, Trim(src), d);
  }

  /** A turn appends to the program the escaped gap and, for a non-blank
      expression, its statement. */
  lemma TurnAppends(prefix: string, x: string, keys: seq<string>, gap: string, e: string, d: string)
    ensures Turn(prefix + x, keys, gap, e, d).0
      == prefix + (x + EscapeSingleQuotes(gap) + (if e == [] then [] else StatementCode(e, d)))
  {
    var a := EscapeSingleQuotes(gap);
    if e == [] {
      assert x + a + [] == x + a;
    } else {
      assert prefix + x + a + StatementCode(e, d) == prefix + (x + a + StatementCode(e, d));
    }
  }

  /** Appending the final literal span. */
  lemma EmitLast(done: seq<Span>, x: string, d: string)
    ensures Emit(done + [Literal(x)], d) == Emit(done, d) + EscapeSingleQuotes(x)
    ensures KeysOf(done + [Literal(x)]) == KeysOf(done)
  {
    assert (done + [Literal(x)])[..|done|] == done;
  }

  /** One turn of the loop on its state, the program text and the keys: the
      escaped gap and, for a non-blank expression, its statement are
      appended, and an expression not seen before is recorded. */
  function Turn(program: string, keys: seq<string>, gap: string, e: string, d: string): (string, seq<string>)
  {
    if e == [] then (program + EscapeSingleQuotes(gap), keys)
    else (program + EscapeSingleQuotes(gap) + StatementCode(e, d), if e in keys then keys else keys + [e])
  }

  /** What the compile loop computes from `lastIndex == from` on, given the
      program text and the keys built so far: the final program and keys. */
  function CompileFrom(t: string, from: nat, program: string, keys: seq<string>, d: string): (string, seq<string>)
    requires from <= |t|
    decreases |t| - from
  {
    var m := Exec(t, from);
    if m.None? then (program + EscapeSingleQuotes(t[from..]) + "'", keys)
    else
      ExecShape(t, from);
      var next := Turn(program, keys, t[from..m.value.index], Trim(t[m.value.index + 1..m.value.end - 1]), d);
      CompileFrom(t, m.value.end, next.0, next.1, d)
  }

  /** The loop at the match `Match(i, j)`: one turn on the gap and the
      trimmed expression, then the rest of the loop from the end of the match. */
  lemma CompileFromStep(t: string, from: nat, i: nat, j: nat, program: string, keys: seq<string>, d: string)
    requires from <= |t| && Exec(t, from) == Some(Match(i, j))
    ensures from <= i && i + 3 <= j <= |t|
    ensures var next := Turn(program, keys, t[from..i], Trim(t[i + 1..j - 1]), d);
      CompileFrom(t, from, program, keys, d) == CompileFrom(t, j, next.0, next.1, d)
  {
    ExecShape(t, from);
  }

  /** The last turn of the loop: no match is left, and the rest of the text
      closes the program. */
  lemma CompileFromEnd(t: string, from: nat, program: string, keys: seq<string>, d: string)
    requires from <= |t| && Exec(t, from).None?
    ensures CompileFrom(t, from, program, keys, d) == (program + EscapeSingleQuotes(t[from..]) + "'", keys)
  {
  }

  /** One turn of the loop on the program and keys of the consumed spans
      yields those of the spans consumed one match further. */
  lemma CompileFromAdvance(t: string, from: nat, i: nat, j: nat, done: seq<Span>, d: string)
    requires from <= |t| && Exec(t, from) == Some(Match(i, j))
    ensures from <= i && i + 3 <= j <= |t|
    ensures var next := done + [Literal(t[from..i]), Placeholder(t[i + 1..j - 1])];
      CompileFrom(t, from, ProgramPrefix + Emit(done, d), KeysOf(done), d)
      == CompileFrom(t, j, ProgramPrefix + Emit(next, d), KeysOf(next), d)
  {
    CompileFromStep(t, from, i, j, ProgramPrefix + Emit(done, d), KeysOf(done), d);
    EmitAdvance(done, t[from..i], t[i + 1..j - 1], d);
  }

  /** The spans from `from` on are the gap and the placeholder of the match
      followed by the spans after it. */
  lemma SpansAdvance(t: string, from: nat, i: nat, j: nat, done: seq<Span>)
    requires from <= |t| && Exec(t, from) == Some(Match(i, j))
    ensures from <= i && i + 3 <= j <= |t|
    ensures done + Spans(t, from) == done + [Literal(t[from..i]), Placeholder(t[i + 1..j - 1])] + Spans(t, j)
  {
    SpansStep(t, from, i, j);
    var pair := [Literal(t[from..i]), Placeholder(t[i + 1..j - 1])];
    assert done + (pair + Spans(t, j)) == done + pair + Spans(t, j);
  }

  /** The induction step of `CompileFromSpans`, for the match `Match(i, j)`. */
  lemma {:induction false} CompileFromInduct(t: string, from: nat, i: nat, j: nat, done: seq<Span>, d: string)
    requires from <= |t| && Exec(t, from) == Some(Match(i, j))
    ensures CompileFrom(t, from, ProgramPrefix + Emit(done, d), KeysOf(done), d)
         == (ProgramPrefix + Emit(done + Spans(t, from), d) + "'", KeysOf(done + Spans(t, from)))
    decreases |t| - from, 0
  {
    CompileFromAdvance(t, from, i, j, done, d);
    SpansAdvance(t, from, i, j, done);
    CompileFromSpans(t, j, done + [Literal(t[from..i]), Placeholder(t[i + 1..j - 1])], d);
  }

  /** Running the loop from any point continues the program and the keys of
      the spans consumed so far with those of the spans still ahead. */
  lemma {:induction false} CompileFromSpans(t: string, from: nat, done: seq<Span>, d: string)
    requires from <= |t|
    ensures CompileFrom(t, from, ProgramPrefix + Emit(done, d), KeysOf(done), d)
         == (ProgramPrefix + Emit(done + Spans(t, from), d) + "'", KeysOf(done + Spans(t, from)))
    decreases |t| - from, 1
  {
    var m := Exec(t, from);
    if m.None? {
      assert Spans(t, from) == [Literal(t[from..])];
      EmitLast(done, t[from..], d);
      var x := EscapeSingleQuotes(t[from..]);
      assert ProgramPrefix + (Emit(done, d) + x) == ProgramPrefix + Emit(done, d) + x;
    } else {
      CompileFromInduct(t, from, m.value.index, m.value.end, done, d);
    }
  }

  /** The loop run from the start yields exactly `ProgramOf` and `KeysOf`. */
  lemma CompileFromStart(t: string, d: string)
    ensures CompileFrom(t, 0, ProgramPrefix, [], d) == (ProgramOf(t, d), KeysOf(Spans(t, 0)))
  {
    CompileFromSpans(t, 0, [], d);
    assert [] + Spans(t, 0) == Spans(t, 0);
    assert Emit([], d) == [];
    assert ProgramPrefix + [] == ProgramPrefix;
  }

  /** Lines 43-81 of `parse`: normalise the template, then `exec` the
      placeholder pattern until it fails, appending the escaped gap before
      each match and, for a non-blank expression, its code, which is created
      and recorded the first time the expression is seen and looked up on
      every later occurrence; the rest of the text closes the program. */
  method CompileTemplate(template: string, defaultValue: string)
    returns (normalized: string, parsedTemplate: string, statementMapping: StatementMapping)
    ensures normalized == ResolveConflictFlags(template)
    ensures parsedTemplate == ProgramOf(normalized, defaultValue)
    ensures statementMapping.keys == KeysOf(Spans(normalized, 0))
    ensures MapsTo(statementMapping, defaultValue)
  {
    parsedTemplate := ProgramPrefix;
    var keys: seq<string> := [];
    var entries: map<string, string> := map[];
    // one variable stands for both `lastIndex` and `templateStatementRegex.lastIndex`,
    // which the loop keeps equal
    var lastIndex := 0;
    normalized := ResolveConflictFlags(template);
    ghost var result := CompileFrom(normalized, 0, parsedTemplate, keys, defaultValue);
    while true
      invariant lastIndex <= |normalized|
      invariant CompileFrom(normalized, lastIndex, parsedTemplate, keys, defaultValue) == result
      invariant MapsTo(StatementMapping(keys, entries), defaultValue)
      decreases |normalized| - lastIndex
    {
      var m := Exec(normalized, lastIndex);
      if m.None? {
        break;
      }
      var index, end := m.value.index, m.value.end;
      CompileFromStep(normalized, lastIndex, index, end, parsedTemplate, keys, defaultValue);
      var gap := normalized[lastIndex..index];
      var tplStatement := Trim(normalized[index + 1..end - 1]);
      parsedTemplate := parsedTemplate + EscapeSingleQuotes(gap);
      lastIndex := end;
      if tplStatement == [] {
        continue;
      }
      var statement;
      if tplStatement in entries {
        statement := entries[tplStatement];
      } else {
        statement := StatementCode(tplStatement, defaultValue);
        entries := entries[tplStatement := statement];
        keys := keys + [tplStatement];
      }
      parsedTemplate := parsedTemplate + statement;
    }
    CompileFromEnd(normalized, lastIndex, parsedTemplate, keys, defaultValue);
    parsedTemplate := parsedTemplate + EscapeSingleQuotes(normalized[lastIndex..]) + "'";
    CompileFromStart(normalized, defaultValue);
    statementMapping := StatementMapping(keys, entries);
  }

  // ---------------------------------------------------------------------
  // The result object and the cache
  // ---------------------------------------------------------------------

  /** The object `parse` returns; the cache holds one of them. Only
      `identifiers` is ever updated in place. */
  class ParseResult {
    const template: string
    const defaultValue: string
    const parsedTemplate: string
    const statementMapping: StatementMapping
    var identifiers: Option<seq<string>>

    constructor (template: string, defaultValue: string, parsedTemplate: string,
                 statementMapping: StatementMapping, identifiers: Option<seq<string>>)
      ensures this.template == template && this.defaultValue == defaultValue
      ensures this.parsedTemplate == parsedTemplate && this.statementMapping == statementMapping
      ensures this.identifiers == identifiers
    {
      this.template := template;
      this.defaultValue := defaultValue;
      this.parsedTemplate := parsedTemplate;
      this.statementMapping := statementMapping;
      this.identifiers := identifiers;
    }
  }

  /** A result that is the compilation of its own (normalised) template. */
  ghost predicate Compiled(r: ParseResult)
    reads r
  {
    && NoConflictFlags(r.template)
    && r.parsedTemplate == ProgramOf(r.template, r.defaultValue)
    && r.statementMapping.keys == KeysOf(Spans(r.template, 0))
    && MapsTo(r.statementMapping, r.defaultValue)
    && (r.identifiers.Some? ==> r.identifiers.value == IdentifiersOf(r.statementMapping.keys))
  }

  /** The cache test of lines 31-35: the stored template (which is the
      normalised one) against the raw argument, and the default values. */
  predicate Hit(cache: ParseResult?, template: string, defaultValue: string)
  {
    && cache != null
    && |cache.template| == |template| && cache.template == template
    && cache.defaultValue == defaultValue
  }

  /** The module-level state of src/template/parser.ts: the one-slot cache. */
  class TemplateParser {
    var cache: ParseResult?

    ghost predicate Valid()
      reads this, cache
    {
      cache != null ==> Compiled(cache)
    }

    /** The module starts with an empty cache. */
    constructor ()
      ensures Valid() && cache == null
    {
      cache := null;
    }

    /** `parse(template, defaultValue, needParseIdentifiers)`. */
    method Parse(template: string, defaultValue: string, needParseIdentifiers: bool)
      returns (r: ParseResult)
      requires Valid()
      modifies this, cache
      ensures Valid()
      // the empty template: a new result, and the cache is not touched
      ensures template == [] ==>
        && fresh(r) && r.template == [] && r.defaultValue == defaultValue
        && r.parsedTemplate == "return ''" && r.statementMapping == EmptyMapping
        && r.identifiers == None
        && cache == old(cache) && (cache != null ==> cache.identifiers == old(cache.identifiers))
      // a hit: the cached object itself, given its identifiers if asked and absent
      ensures template != [] && Hit(old(cache), template, defaultValue) ==>
        && r == old(cache) && cache == r
        && r.identifiers == if needParseIdentifiers && old(cache.identifiers).None?
                            then Some(IdentifiersOf(r.statementMapping.keys))
                            else old(cache.identifiers)
      // a miss: a new object replaces the cache wholesale
      ensures template != [] && !Hit(old(cache), template, defaultValue) ==>
        && fresh(r) && cache == r
        && r.identifiers == if needParseIdentifiers then Some(IdentifiersOf(r.statementMapping.keys)) else None
      // either way: the compilation of the normalised template
      ensures template != [] ==>
        && r.template == ResolveConflictFlags(template) && r.defaultValue == defaultValue
        && r.parsedTemplate == ProgramOf(r.template, defaultValue)
        && r.statementMapping.keys == KeysOf(Spans(r.template, 0))
        && MapsTo(r.statementMapping, defaultValue)
        && (needParseIdentifiers ==> r.identifiers == Some(IdentifiersOf(r.statementMapping.keys)))
      // on a miss the object cached before is left as it was
      ensures old(cache) != null && r != old(cache) ==> old(cache).identifiers == old(cache.identifiers)
      // the stored template is normalised, so one with `\{` or `\}` always misses
      ensures template != [] && !NoConflictFlags(template) ==> fresh(r)
    {
      if template == [] {
        assert Emit([], defaultValue) == [];
        r := new ParseResult(template, defaultValue, "return ''", EmptyMapping, None);
        return;
      }

      if Hit(cache, template, defaultValue) {
        if needParseIdentifiers && cache.identifiers == None {
          var identifiers := ParseIdentifiers(cache.statementMapping.keys);
          cache.identifiers := Some(identifiers);
        }
        ResolveUnchanged(template);
        r := cache;
        return;
      }

      var normalized, parsedTemplate, statementMapping := CompileTemplate(template, defaultValue);
      ResolvedHasNoConflictFlags(template);
      var identifiers := None;
      if needParseIdentifiers {
        var ids := ParseIdentifiers(statementMapping.keys);
        identifiers := Some(ids);
      }
      r := new ParseResult(normalized, defaultValue, parsedTemplate, statementMapping, identifiers);
      cache := r;
    }
  }

  /** Lines 47-53 of the test file: two consecutive calls with the same
      template and default value return the same object, and a later request
      for identifiers fills them in on that shared object. */
  method RepeatedParseSharesResult(parser: TemplateParser, template: string, defaultValue: string)
    returns (first: ParseResult, second: ParseResult)
    requires parser.Valid() && template != [] && NoConflictFlags(template)
    modifies parser, parser.cache
    ensures parser.Valid()
    ensures first == second && first.identifiers == Some(IdentifiersOf(first.statementMapping.keys))
  {
    first := parser.Parse(template, defaultValue, false);
    ResolveUnchanged(template);
    second := parser.Parse(template, defaultValue, true);
  }
}
