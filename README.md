# wivi string templates, modelled in Dafny

This project models the template compiler of wivi (`src/template/parser.ts`) and the
parameter binding built on it (`src/template/index.ts`), and proves properties of the model.

A template such as `hello, {name}` is compiled into the body of a JavaScript function.
The body is `return '`, then the literal text with every `'` escaped, interleaved with a
statement `' + ((expr) || 'default') + '` for each placeholder, then a closing `'`.
The compiler proceeds as follows:

- It first rewrites the escaped brace `\{` to `\x7b` and `\}` to `\x7d`.
- It then runs the placeholder pattern `/\{([^\}]+)\}/g` in an `exec` loop. A placeholder
  is a `{` whose next `}` is at least two characters further on. `{}` is not a placeholder,
  and an unterminated `{` stays literal.
- Each distinct trimmed, non-blank expression gets one statement. The statement is recorded
  in a mapping keyed by the expression and reused for every repeat. A blank placeholder is
  consumed and emits nothing.
- If asked, the compiler also collects the identifiers of the expressions. These are the
  root names of access chains, found after quoted strings are cut out.
- One module-level cache holds the last result. Its identifiers can be filled in later.

`buildTemplate` compiles once and returns a closure. Each call of the closure binds one
value per identifier: the data object's own property, or the effective default
(`defVal || defaultValue`). `format` binds every own key of the data object instead.

The modules follow the source:

| file | module | models |
|---|---|---|
| `wrappers.dfy` | `Wrappers` | `Option` |
| `js_text.dfy` | `JsText` | JavaScript white space and `String.prototype.trim` |
| `escaping.dfy` | `Escaping` | `resolveConflictStatementFlags`, `escapeSingleQuoute` |
| `scanner.dfy` | `Scanner` | the placeholder pattern and its `exec`/`lastIndex` loop, as a list of spans |
| `identifiers.dfy` | `Identifiers` | the quoted-string pattern, the identifier pattern, `parseIdentifiers` |
| `parser.dfy` | `Parser` | `parse`, with its compile loop, result object and one-slot cache |
| `binding.dfy` | `Binding` | the closure of `buildTemplate`, and `format` |

The compile loop of `parse` is the method `Parser.CompileTemplate`. It is proved against the
function `CompileFrom`, which describes the rest of the loop from a given `lastIndex`. The
loop state is tied to a reference definition: the spans of the template (`Scanner.Spans`),
the program they emit (`Parser.ProgramOf`) and the keys they record (`Parser.KeysOf`). The
properties are proved about those. The module-level cache is the class
`Parser.TemplateParser`, whose field `cache` holds a `ParseResult` object. A cache hit
updates `identifiers` in place on that object.

Three behaviours of the code are easy to miss, and the model follows the code:

- The single-quote pattern `(?=[^\\]|^)'` uses a lookahead, so it escapes EVERY `'`. A quote
  that is already preceded by a backslash is escaped too (`Escaping.EscapesQuoteAfterBackslash`).
- The identifiers are not deduplicated, neither by `parseIdentifiers` nor by the binder. A
  name used in two expressions is a parameter twice, and gets the same value at both
  positions (`Binding.BindRepeatedKey`).
- The cache stores the normalised template but compares it with the raw argument. A template
  containing `\{` or `\}` therefore never hits the cache (the last `ensures` of
  `Parser.TemplateParser.Parse`).

## Model

| member | source | states |
|---|---|---|
| JsText.IsSpace | src/template/parser.ts:58 | the white space `trim()` removes and `\s` matches: the ECMAScript WhiteSpace and LineTerminator characters |
| JsText.TrimStart | src/template/parser.ts:58 | the leading half of `trim()` |
| JsText.TrimEnd | src/template/parser.ts:58 | the trailing half of `trim()` |
| JsText.Trim | src/template/parser.ts:58 | `String.prototype.trim`, as used on each captured expression |
| JsText.TrimStartSpec | src/template/parser.ts:58 | trimming the start drops a prefix of white space only, and what is left starts with no white space |
| JsText.TrimEndSpec | src/template/parser.ts:58 | trimming the end drops a suffix of white space only, and what is left ends with no white space |
| JsText.TrimSpec | src/template/parser.ts:58 | `trim()` returns the middle part of the expression; everything around it is white space, and it starts and ends with a non-space character |
| JsText.TrimEmpty | src/template/parser.ts:58-66 | an expression trims to empty (is skipped) exactly when it is all white space |
| JsText.TrimChars | src/template/parser.ts:58 | every character of the trimmed expression comes from the expression |
| JsText.TrimIdempotent | src/template/parser.ts:58 | trimming twice is trimming once |
| Escaping.ReplacePair | src/template/parser.ts:122-124 | a global `replace` of one two-character pair by a replacement text |
| Escaping.ResolveConflictFlags | src/template/parser.ts:117-125 | `resolveConflictStatementFlags`: `\{` becomes `\x7b`, then `\}` becomes `\x7d` |
| Escaping.ReplacePairHead | src/template/parser.ts:122-124 | a global replace of a two-character pair keeps the first character unless a pair starts there |
| Escaping.ReplacePairAvoids | src/template/parser.ts:122-124 | replacing `\{` by `\x7b` creates no new `\{` or `\}` pair |
| Escaping.ReplacePairUnchanged | src/template/parser.ts:122-124 | a replace with no pair to match changes nothing |
| Escaping.ResolvedHasNoConflictFlags | src/template/parser.ts:117-125 | the normalised template contains neither `\{` nor `\}` |
| Escaping.ResolveUnchanged | src/template/parser.ts:117-125 | a template without `\{` and `\}` is left as it is, including the empty one |
| Escaping.ResolveIdempotent | src/template/parser.ts:117-125 | normalising twice is normalising once |
| Escaping.EscapeChar | src/template/parser.ts:133 | one character of the escaping: `'` becomes `\'`, anything else stays |
| Escaping.EscapeSingleQuotes | src/template/parser.ts:128-134 | `escapeSingleQuoute`: every `'` escaped, because the guard of the pattern on line 6 is a lookahead |
| Escaping.EscapeHead | src/template/parser.ts:128-134 | an escaped non-empty gap never starts with a bare quote |
| Escaping.EscapeRoundTrip | src/template/parser.ts:128-134 | removing the backslash before each quote gives back the gap: every other character is kept in order |
| Escaping.EscapedQuotesArePrefixed | src/template/parser.ts:6 | every `'` in the output is preceded by a backslash |
| Escaping.EscapeLength | src/template/parser.ts:128-134 | the output is longer by exactly the number of quotes |
| Escaping.EscapeWithoutQuotes | src/template/parser.ts:128-134 | a text without quotes, including the empty text, maps to itself |
| Escaping.EscapeAppend | src/template/parser.ts:128-134 | escaping commutes with concatenation |
| Escaping.EscapesQuoteAfterBackslash | src/template/parser.ts:6 | a quote that already has a backslash before it is escaped again (the lookahead) |
| Scanner.MatchesAt | src/template/parser.ts:3 | the placeholder pattern matches at a `{` whose next `}` is at least two characters further on |
| Scanner.NextClose | src/template/parser.ts:3 | the position of the first `}` at or after a position, or the end of the text |
| Scanner.Exec | src/template/parser.ts:3 | a match of the placeholder pattern from `lastIndex` starts at a `{` at or after it, and ends just after the next `}` |
| Scanner.ExecShape | src/template/parser.ts:3 | a match is at least three characters long, from `{` to `}` |
| Scanner.ExecSourceHasNoClose | src/template/parser.ts:3 | the captured expression contains no `}` |
| Scanner.ExecFinds | src/template/parser.ts:3 | `exec` returns the first position from `lastIndex` on where the pattern matches |
| Scanner.Spans | src/template/parser.ts:51-81 | the template split the way the loop consumes it: the gap before each match, the match, and the final gap |
| Scanner.ExecLeftmost | src/template/parser.ts:3 | no placeholder starts between `lastIndex` and the match (the match is the leftmost one) |
| Scanner.PartitionStep | src/template/parser.ts:51-62 | one match together with the text before it and the spans after it rebuilds the text |
| Scanner.SplitAtMatch | src/template/parser.ts:60-62 | the text from `lastIndex` is the gap, the braced match and the text after the match |
| Scanner.SpansPartition | src/template/parser.ts:43-81 | the gaps and the braced placeholders, left to right, concatenate to the normalised template |
| Scanner.SpansStep | src/template/parser.ts:52-62 | each match contributes its gap and its placeholder, and the scan goes on after it |
| Scanner.SpansWellFormed | src/template/parser.ts:3 | gaps and placeholders alternate, starting and ending with a gap, and every expression is non-empty and free of `}` |
| Scanner.WellFormedStep | src/template/parser.ts:52-62 | a match in front of well-formed spans keeps the spans from `lastIndex` well formed |
| Scanner.WellFormedCons | src/template/parser.ts:52-62 | a gap and a valid placeholder in front of well-formed spans keep them well formed |
| Scanner.GapBraces | src/template/parser.ts:3 | in a text where no placeholder starts, each `{` is the start of `{}` or has no `}` after it |
| Scanner.SpansLiteralBraces | src/template/parser.ts:3 | every gap has that form: `{}` is not a placeholder and an unterminated `{` stays literal |
| Scanner.NoPlaceholderSpans | src/template/parser.ts:51-56 | a template where the pattern finds nothing is one literal span |
| Parser.StatementCode | src/template/parser.ts:74 | the statement `' + ((expr) \|\| 'default') + '`, with the default value inserted as plain text |
| Parser.ProgramOf | src/template/parser.ts:43-81 | the program of a normalised template: `return '`, the code of its spans left to right, and `'` |
| Parser.KeysOf | src/template/parser.ts:70-78 | the distinct non-blank trimmed expressions, in order of first occurrence |
| Parser.Turn | src/template/parser.ts:58-78 | one turn of the loop on the program and the keys |
| Parser.CompileFrom | src/template/parser.ts:51-81 | the rest of the loop from a given `lastIndex` |
| Parser.Hit | src/template/parser.ts:31-35 | the cache test: a cached object whose stored (normalised) template equals the raw argument, with the same default |
| Parser.EmitTwo | src/template/parser.ts:60-78 | appending a gap and a placeholder appends their code to the program |
| Parser.KeysDistinct | src/template/parser.ts:70-78 | the statement mapping has no repeated key |
| Parser.OccursSplit | src/template/parser.ts:58-78 | an expression occurs in a list of spans exactly when it occurs in the prefix or in the last span |
| Parser.KeysExact | src/template/parser.ts:58-78 | an expression is a key exactly when it is non-blank and some placeholder trims to it |
| Parser.KeysOfTemplate | src/template/parser.ts:58-66 | every key is non-empty, starts and ends with a non-space character, and contains no `}` |
| Parser.LiteralTemplateProgram | src/template/parser.ts:43-81 | a template without placeholders compiles to `return '` + the escaped text + `'`, which unescapes to the text, and has no keys |
| Parser.KeysStep | src/template/parser.ts:70-78 | a placeholder adds its expression to the keys exactly when it is non-blank and new |
| Parser.EmitAdvance | src/template/parser.ts:58-78 | one loop turn on the program and keys of the consumed spans gives those of the spans one gap and one placeholder longer |
| Parser.EmitLast | src/template/parser.ts:81 | the final gap appends its escaped text and adds no key |
| Parser.CompileFromStep | src/template/parser.ts:51-79 | at a match, the loop takes one turn on the gap and the trimmed expression (which appends the escaped gap, appends the statement of a non-blank expression, and records an expression not seen before), then goes on from the end of the match |
| Parser.CompileFromEnd | src/template/parser.ts:54-56 | when no placeholder is left, the rest of the text closes the program |
| Parser.CompileFromAdvance | src/template/parser.ts:51-79 | one loop turn from the program and keys of the spans consumed so far yields those of one match more |
| Parser.SpansAdvance | src/template/parser.ts:51-79 | the spans from `lastIndex` are the gap and placeholder of the match, then the spans after it |
| Parser.CompileFromInduct | src/template/parser.ts:51-79 | the induction step of `CompileFromSpans` for one match |
| Parser.CompileFromSpans | src/template/parser.ts:51-81 | from any point, the loop continues the program and keys of the consumed spans with those of the spans ahead |
| Parser.CompileFromStart | src/template/parser.ts:43-81 | the loop run from the start yields exactly the program and the keys of the template's spans |
| Parser.CompileTemplate | src/template/parser.ts:43-81 | the loop: the normalised template, its program, its keys in first-seen order, and each key mapped to its statement `' + ((expr) \|\| 'default') + '` |
| Parser.ParseResult.constructor | src/template/parser.ts:83-89 | the result object holds what it is built with |
| Parser.TemplateParser.constructor | src/template/parser.ts:10-16 | the module starts with an empty cache |
| Parser.TemplateParser.Parse | src/template/parser.ts:19-90 | the empty template gives `return ''`, no keys and no identifiers, and leaves the cache alone; a hit returns the cached object and fills in missing identifiers when asked; a miss replaces the cache with a new object and leaves the object cached before unchanged; every non-empty result is the compilation of the normalised template; a template with `\{` or `\}` never hits |
| Parser.RepeatedParseSharesResult | src/test/template.ts:47-53 | two calls with the same template and default return the same object, which then has its identifiers |
| Identifiers.CloseQuote | src/template/parser.ts:7 | the lazy tail `.*?[^\\]\1` ends at the FIRST place where a non-backslash character is followed by the opening quote, with no line terminator skipped; none when there is no such place |
| Identifiers.QuotedAt | src/template/parser.ts:7 | the shortest match at a position: a character that is not a backslash, a quote, and the lazy tail to the same quote; none exactly when no match starts there |
| Identifiers.StripFrom | src/template/parser.ts:100 | cutting out quoted strings never makes a statement longer |
| Identifiers.StripKeeps | src/template/parser.ts:100 | the result is a subsequence of the statement: the characters at increasing positions where no match starts, and every dropped position lies inside a match |
| Identifiers.StripCutsExact | src/template/parser.ts:100 | the cut matches are matches of the pattern, in order and without overlap, and exactly the characters outside them are kept |
| Identifiers.StripWithoutQuotes | src/template/parser.ts:100 | a statement without quotes is left as it is |
| Identifiers.IsExcluded | src/template/parser.ts:8 | the characters the class `` [^\s`!-\/:-\@\[-^\{-~] `` refuses: white space, the backtick and four ASCII punctuation ranges |
| Identifiers.IsNameStart | src/template/parser.ts:8 | the first character of a name: `$`, or neither excluded nor a digit |
| Identifiers.IsNamePart | src/template/parser.ts:8 | a later character of a name: any character that is not excluded |
| Identifiers.IsChainOpener | src/template/parser.ts:8 | the characters `[\s\[\(]` after which a name may start |
| Identifiers.RunEnd | src/template/parser.ts:8 | the end of the greedy run of name characters |
| Identifiers.ExecName | src/template/parser.ts:8 | a match of the identifier pattern captures a name at a name start, and no name starts strictly after `lastIndex` and before it (a name starting exactly at a positive `lastIndex` is missed, since its opener lies before `lastIndex`) |
| Identifiers.ExecNames | src/template/parser.ts:102-110 | what the `exec` loop pushes for one statement |
| Identifiers.RootNamesSkip | src/template/parser.ts:8 | positions where no name starts contribute nothing |
| Identifiers.NoStartInsideName | src/template/parser.ts:8 | no name starts inside a captured name |
| Identifiers.RootNamesAtName | src/template/parser.ts:8 | the names from a name start are that name, then the names after its run |
| Identifiers.RootNamesStep | src/template/parser.ts:102-110 | one match of the loop is the next root name |
| Identifiers.ExecNamesAreRootNames | src/template/parser.ts:102-110 | the `exec` loop collects exactly the names at all name starts, in order |
| Identifiers.RootNamesShape | src/template/parser.ts:8 | a name is collected exactly when it is the maximal run at a position that starts the statement or follows white space, `[` or `(`; every collected name is well formed |
| Identifiers.ParseIdentifiers | src/template/parser.ts:93-114 | the identifiers are, statement by statement, the root names of the statement with its quoted strings cut out (duplicates kept) |
| Identifiers.IdentifiersAreNames | src/template/parser.ts:93-114 | every identifier is `$` or a non-digit name-start character followed by name characters |
| Identifiers.IdentifiersOf | src/template/parser.ts:93-114 | statement by statement, the root names of the statement with its quoted strings cut out |
| Identifiers.TestTemplateIdentifiers | src/test/template.ts:59-61 | the three statements of the test template, given as written rather than derived from the template by the scanner, yield `Date firstName middleName lastName` |
| Identifiers.UserNameRoots | src/template/parser.ts:8 | `user.name` has the single root name `user` |
| Identifiers.UserNameYieldsUser | src/test/template.ts:121-126 | the statement `user.name` yields the identifier `user` only |
| Binding.EffectiveDefault | src/template/index.ts:29 | the per-call default when it is non-empty, the build-time default otherwise |
| Binding.BoundValue | src/template/index.ts:33 | one key: the own property when the object has it, the default otherwise |
| Binding.Bind | src/template/index.ts:31-35 | one value per key, in order: the own property when the object has it, the default otherwise |
| Binding.Renderer.Invoke | src/template/index.ts:26-38 | the function is built from the captured keys and program, and applied to the bound values; the closure holds no parser and changes nothing |
| Binding.BuildTemplate | src/template/index.ts:18-24 | the parameter keys are the identifiers of the compiled template, or none for the empty template; afterwards the parser's cache holds that compilation with those identifiers; for the empty template the cache reference and the cached object's identifiers are unchanged; on a miss the object cached before is left as it was |
| Binding.OwnEntries | src/template/index.ts:54-60 | a leading `undefined` slot, then every own key in `Object.keys` order, with its value at the same position |
| Binding.Format | src/template/index.ts:49-67 | the empty template gives `''` and touches no parser state; otherwise the program is built with every own key as a parameter and applied to the aligned values, and the parser's cache holds that compilation, with the identifiers it had on a hit and none on a miss (they are not requested); the object cached before is left as it was |
| Binding.BindAgrees | src/template/index.ts:31-35 | objects that agree on the own properties named by the keys bind alike |
| Binding.BindRepeatedKey | src/template/index.ts:31-35 | a repeated key gets the same value at every position |
| Binding.BindEmptyObject | src/template/index.ts:29-35 | with an empty object, every parameter gets the effective default, so a missing key never fails |
| Binding.HelloNameKeys | src/test/template.ts:128-129 | `hello, {name}` needs no normalising and compiles to the single identifier `name` |
| Binding.HelloNameTemplate | src/test/template.ts:128-129 | `buildTemplate('hello, {name}', '...')` returns the closure with the key `name`, the compiled program and the default `...` |
| Binding.HelloNameDefaults | src/test/template.ts:131-135 | that closure called with the empty object binds `...`, and `E.T.` when the call passes that default |

## Left out

- The generated JavaScript is not evaluated. This covers `Function.bind.apply` and `new func()` (src/template/index.ts:22-24, 62-66), the truthiness of `||`, and how `\x7b` and `\'` decode inside the string literal. It also covers the reference errors an unbound name raises. A call of the generated function is described by its `bind` arguments and the values it is applied to.
- Regular expressions are written out as character predicates and scanners. Only the behaviour of the six patterns on lines 3-8 is modelled, not a general regular-expression engine.
- JavaScript strings are sequences of UTF-16 code units, while Dafny characters are Unicode scalar values. White space follows the ECMAScript definition, listed character by character in `JsText.IsSpace`.
- Surrogate pairs are left out. Before a quote, the class `[^\\]` of the quoted-string pattern consumes one UTF-16 code unit, so in JavaScript `x😀'a'` keeps the high surrogate of the emoji as a name character, while the model cuts the whole character.
- The escaping does not always produce valid JavaScript (src/template/parser.ts:6, 133). A gap containing `\'` becomes `\\'`, whose quote ends the string literal, and a gap ending in `\` escapes the closing quote. The model states the text the code produces and claims nothing about the generated code being well formed.
- A data object that is `null` or `undefined` makes `hasOwnProperty` and `Object.keys` throw (src/template/index.ts:33, 57). The model's data objects are always objects.
- `Object.keys` lists integer-like keys first, in numeric order. The model keeps the statement mapping and data objects in insertion order.
- An expression or data key named like an `Object.prototype` member (`__proto__`, `hasOwnProperty`) behaves specially in JavaScript. The model treats every key as an ordinary own property.
- Inherited and non-enumerable properties of data objects are left out. A data object is its own enumerable keys and their values.
- The default value is spliced into the generated code without escaping (src/template/parser.ts:74). The model inserts it as plain text, and nothing is claimed about the safety of the code.
- Non-string arguments (`undefined` templates or default values, a non-string per-call default) are left out. Every text is a Dafny `string`.
- The cache is a field of a class object. The module-level singleton and concurrency are left out.
- `src/types` (the `HashMap` type) is not part of this model. The statement mapping is a key list in insertion order plus a map.
- The test file `src/test/template.ts` is used only as evidence for properties. `Date.now()` and the test framework are not modelled.
- Scanner.Spans, Parser.ProgramOf, Parser.KeysOf, Parser.Turn, Parser.CompileFrom and Identifiers.IdentifiersOf are reference definitions without an `ensures` of their own. What they mean is stated by the lemmas listed beside them.
- StripFrom: its own contract gives only a length bound. Which characters it keeps is stated by `Identifiers.StripKeeps` and `Identifiers.StripCutsExact`.
- TestTemplateIdentifiers: the three statements of the test template (src/test/template.ts:48) are given as written. That the scanner splits the 74-character template into exactly those statements is not proved, because unfolding the scanner over a literal that long is too costly for the verifier; the shorter `hello, {name}` is derived by `Binding.HelloNameKeys`.
- Binding.Renderer.Invoke: applies the generated function without evaluating it, so the text it returns is not modelled.
