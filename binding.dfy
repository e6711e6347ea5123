/** The parameter binding of src/template/index.ts: `buildTemplate` compiles
    a template once and returns a closure that turns a data object into the
    list of values for the parameters of the generated function; `format`
    binds every own key of the data object instead. The generated function
    itself is opaque: a call to it is modelled by the arguments it is built
    and applied with. */
module Binding {
  import opened Wrappers
  import opened JsText
  import opened Escaping
  import opened Scanner
  import opened Identifiers
  import opened Parser

  /** A value of a data object's property; only strings matter here, since
      the default value put in place of a missing one is a string. */
  datatype JsValue = JsString(text: string) | JsOther(handle: nat)

  /** A plain data object: its own enumerable keys in `Object.keys` order and
      its own properties. */
  datatype ObjectRecord = ObjectRecord(keys: seq<string>, props: map<string, JsValue>)

  predicate IsObject(o: ObjectRecord)
  {
    && (forall i, j :: 0 <= i < j < |o.keys| ==> o.keys[i] != o.keys[j])
    && (forall k :: k in o.props ==> k in o.keys)
    && (forall i :: 0 <= i < |o.keys| ==> o.keys[i] in o.props)
  }

  type JsObject = o: ObjectRecord | IsObject(o) witness ObjectRecord([], map[])

  /** The generated function and what it is applied to:
      `Function.bind.apply(Function, bindArgs)` builds it, where the first
      element of `bindArgs` is the this-argument `bind` ignores, the last one
      the body, and the ones between the parameter names (`None` stands for
      `undefined`); `args` are the values it is applied to. */
  datatype Call = Call(bindArgs: seq<Option<string>>, args: seq<JsValue>)

  /** What `format` returns: the empty string at once, or what the call of
      the generated function returns. */
  datatype FormatOutcome = Immediate(text: string) | Evaluate(call: Call)

  /** Line 29: `defVal || defaultValue` on strings, where only the empty
      string is falsy. */
  function EffectiveDefault(defVal: string, defaultValue: string): (r: string)
    ensures r == defVal || r == defaultValue
    ensures defVal != [] ==> r == defVal
    ensures r == [] <==> defVal == [] && defaultValue == []
  {
    if defVal != [] then defVal else defaultValue
  }

  /** Line 33 for one key: the data object's own property, or the default. */
  function BoundValue(data: JsObject, key: string, dflt: string): JsValue
  {
    if key in data.props then data.props[key] else JsString(dflt)
  }

  /** The values the closure's loop pushes, one per parameter key, in order. */
  function Bind(keys: seq<string>, data: JsObject, dflt: string): (vs: seq<JsValue>)
    ensures |vs| == |keys|
    ensures forall i :: 0 <= i < |keys| && keys[i] in data.props ==> vs[i] == data.props[keys[i]]
    ensures forall i :: 0 <= i < |keys| && keys[i] !in data.props ==> vs[i] == JsString(dflt)
  {
    if keys == [] then []
    else Bind(keys[..|keys| - 1], data, dflt) + [BoundValue(data, keys[|keys| - 1], dflt)]
  }

  /** The parameter names as `bind` arguments. */
  function Named(keys: seq<string>): (r: seq<Option<string>>)
    ensures |r| == |keys| && forall i :: 0 <= i < |keys| ==> r[i] == Some(keys[i])
  {
    seq(|keys|, i requires 0 <= i < |keys| => Some(keys[i]))
  }

  /** The closure `buildTemplate` returns, with what it captures: the
      parameter keys, the program and the build-time default value. It holds
      no parser, so calling it never compiles again. */
  datatype Renderer = Renderer(paramKeys: seq<string>, program: string, defaultValue: string)
  {
    /** Lines 26-38: the closure called with `data` and `defVal`. The
        function was built once from the keys and the program; the values
        follow the keys one for one, and a key the object lacks gets the
        effective default instead of an error. */
    method Invoke(data: JsObject, defVal: string) returns (call: Call)
      ensures call.bindArgs == [Some("")] + Named(paramKeys) + [Some(program)]
      ensures call.args == Bind(paramKeys, data, EffectiveDefault(defVal, defaultValue))
    {
      var paramValues: seq<JsValue> := [];
      var dflt := EffectiveDefault(defVal, defaultValue);
      for i := 0 to |paramKeys|
        invariant paramValues == Bind(paramKeys[..i], data, dflt)
      {
        var key := paramKeys[i];
        paramValues := paramValues + [BoundValue(data, key, dflt)];
        assert paramKeys[..i + 1][..i] == paramKeys[..i];
      }
      assert paramKeys[..|paramKeys|] == paramKeys;
      call := Call([Some("")] + Named(paramKeys) + [Some(program)], paramValues);
    }
  }

  /** Lines 18-24: compile once with identifiers requested; the parameter
      keys are the identifiers, or none when there are none (the empty
      template). */
  method BuildTemplate(parser: TemplateParser, template: string, defaultValue: string)
    returns (render: Renderer)
    requires parser.Valid()
    modifies parser, parser.cache
    ensures parser.Valid()
    ensures render.defaultValue == defaultValue
    ensures template == [] ==>
      && render.paramKeys == [] && render.program == "return ''"
      && parser.cache == old(parser.cache)
      && (parser.cache != null ==> parser.cache.identifiers == old(parser.cache.identifiers))
    ensures template != [] ==>
      var normalized := ResolveConflictFlags(template);
      && render.paramKeys == IdentifiersOf(KeysOf(Spans(normalized, 0)))
      && render.program == ProgramOf(normalized, defaultValue)
      // the parser's cache holds this compilation, with its identifiers
      && parser.cache != null && parser.cache.template == normalized
      && parser.cache.defaultValue == defaultValue
      && parser.cache.identifiers == Some(render.paramKeys)
    // on a miss the object cached before is left as it was
    ensures old(parser.cache) != null && parser.cache != old(parser.cache) ==>
      old(parser.cache).identifiers == old(parser.cache.identifiers)
  {
    var parseResult := parser.Parse(template, defaultValue, true);
    var paramKeys := if parseResult.identifiers.Some? then parseResult.identifiers.value else [];
    render := Renderer(paramKeys, parseResult.parsedTemplate, defaultValue);
  }

  /** Lines 54-60: every own key of `data` in `Object.keys` order behind a
      leading `undefined` slot for `bind`'s this-argument, and its value at
      the same position. */
  method OwnEntries(data: JsObject) returns (paramKeys: seq<Option<string>>, paramValues: seq<JsValue>)
    ensures |paramKeys| == |paramValues| + 1 == |data.keys| + 1 && paramKeys[0] == None
    ensures forall i :: 0 <= i < |data.keys| ==>
      paramKeys[i + 1] == Some(data.keys[i]) && paramValues[i] == data.props[data.keys[i]]
    ensures forall k :: k in data.props ==>
      exists i :: 0 <= i < |paramValues| && paramKeys[i + 1] == Some(k) && paramValues[i] == data.props[k]
  {
    paramKeys := [None];
    paramValues := [];
    for n := 0 to |data.keys|
      invariant |paramKeys| == |paramValues| + 1 == n + 1 && paramKeys[0] == None
      invariant forall i :: 0 <= i < n ==>
        paramKeys[i + 1] == Some(data.keys[i]) && paramValues[i] == data.props[data.keys[i]]
    {
      var key := data.keys[n];
      paramKeys := paramKeys + [Some(key)];
      paramValues := paramValues + [data.props[key]];
    }
    forall k | k in data.props
      ensures exists i :: 0 <= i < |paramValues| && paramKeys[i + 1] == Some(k) && paramValues[i] == data.props[k]
    {
      var i :| 0 <= i < |data.keys| && data.keys[i] == k;
      assert paramKeys[i + 1] == Some(k) && paramValues[i] == data.props[k];
    }
  }

  /** Lines 49-67: the empty template gives `''` without compiling (and the
      parser's cache is left alone); otherwise the compiled program is built
      with every own key of `data` as a parameter and applied to the values
      in the same order. */
  method Format(parser: TemplateParser, template: string, data: JsObject, defaultValue: string)
    returns (out: FormatOutcome)
    requires parser.Valid()
    modifies parser, parser.cache
    ensures parser.Valid()
    ensures template == [] ==> out == Immediate("") && unchanged(parser) && (parser.cache != null ==> unchanged(parser.cache))
    ensures template != [] ==>
      && out.Evaluate? && |out.call.bindArgs| == |data.keys| + 2 && |out.call.args| == |data.keys|
      && out.call.bindArgs[0] == None
      && out.call.bindArgs[|data.keys| + 1] == Some(ProgramOf(ResolveConflictFlags(template), defaultValue))
      && (forall i :: 0 <= i < |data.keys| ==>
            out.call.bindArgs[i + 1] == Some(data.keys[i]) && out.call.args[i] == data.props[data.keys[i]])
      // the parser's cache holds this compilation
      && parser.cache != null && parser.cache.template == ResolveConflictFlags(template)
      && parser.cache.defaultValue == defaultValue
      // identifiers are not requested: kept on a hit, absent on a miss
      && parser.cache.identifiers == (if parser.cache == old(parser.cache) then old(parser.cache.identifiers) else None)
    // the object cached before is left as it was
    ensures old(parser.cache) != null ==> old(parser.cache).identifiers == old(parser.cache.identifiers)
  {
    if template == [] {
      return Immediate("");
    }
    var paramKeys, paramValues := OwnEntries(data);
    var parseResult := parser.Parse(template, defaultValue, false);
    out := Evaluate(Call(paramKeys + [Some(parseResult.parsedTemplate)], paramValues));
  }

  // ---------------------------------------------------------------------
  // Properties of the binding
  // ---------------------------------------------------------------------

  /** The values depend on `data` only through the own properties named by
      the keys: objects that agree there bind alike. */
  lemma BindAgrees(keys: seq<string>, a: JsObject, b: JsObject, dflt: string)
    requires forall i :: 0 <= i < |keys| ==> (keys[i] in a.props <==> keys[i] in b.props)
    requires forall i :: 0 <= i < |keys| && keys[i] in a.props ==> a.props[keys[i]] == b.props[keys[i]]
    ensures Bind(keys, a, dflt) == Bind(keys, b, dflt)
  {
    var va, vb := Bind(keys, a, dflt), Bind(keys, b, dflt);
    forall i | 0 <= i < |keys| ensures va[i] == vb[i] {
      if keys[i] in a.props {
        assert va[i] == a.props[keys[i]];
      }
    }
  }

  /** A key repeated among the parameter keys (identifiers are not
      deduplicated) is bound to the same value at each of its positions. */
  lemma BindRepeatedKey(keys: seq<string>, data: JsObject, dflt: string, i: nat, j: nat)
    requires i < |keys| && j < |keys| && keys[i] == keys[j]
    ensures Bind(keys, data, dflt)[i] == Bind(keys, data, dflt)[j]
  {
    if keys[i] in data.props {
      assert Bind(keys, data, dflt)[i] == data.props[keys[j]];
    }
  }

  /** With nothing in the data object, every parameter gets the effective
      default: the build-time one when the call passes no default, the
      call's own when it does. */
  lemma {:induction false} BindEmptyObject(keys: seq<string>, defVal: string, defaultValue: string)
    ensures var dflt := EffectiveDefault(defVal, defaultValue);
      Bind(keys, ObjectRecord([], map[]), dflt) == seq(|keys|, _ => JsString(dflt))
  {
    var dflt := EffectiveDefault(defVal, defaultValue);
    var vs := Bind(keys, ObjectRecord([], map[]), dflt);
    forall i | 0 <= i < |keys| ensures vs[i] == JsString(dflt) {
      assert keys[i] !in ObjectRecord([], map[]).props;
    }
  }

  /** The template `hello, {name}` needs no normalising, and its only
      parameter is `name`. */
  lemma HelloNameKeys(t: string)
    requires t == "hello, {name}"
    ensures ResolveConflictFlags(t) == t
    ensures IdentifiersOf(KeysOf(Spans(t, 0))) == ["name"]
  {
    ResolveUnchanged(t);
    HelloNameSpans(t);
    HelloNameKeyList(t[0..7], t[8..12]);
    NameIdentifiers();
  }

  /** The scanner finds one placeholder, `{name}` at 7..13, and an empty gap after it. */
  lemma HelloNameSpans(t: string)
    requires t == "hello, {name}"
    ensures Spans(t, 0) == [Literal(t[0..7]), Placeholder(t[8..12]), Literal([])]
    ensures t[8..12] == "name"
  {
    HelloNameMatch(t);
    SpansStep(t, 0, 7, 13);
    assert Exec(t, 13) == None && t[13..] == [];
    assert Spans(t, 13) == [Literal([])];
  }

  lemma HelloNameMatch(t: string)
    requires t == "hello, {name}"
    ensures Exec(t, 0) == Some(Match(7, 13))
  {
    forall q | 0 <= q < 7 ensures !MatchesAt(t, q) {
      assert t[q] != '{' by { assert q == 0 || q == 1 || q == 2 || q == 3 || q == 4 || q == 5 || q == 6; }
    }
    assert NextClose(t, 12) == 12;
    assert NextClose(t, 8) == 12 by {
      assert NextClose(t, 11) == 12;
      assert NextClose(t, 10) == 12;
      assert NextClose(t, 9) == 12;
    }
    ExecFinds(t, 0, 7);
  }

  lemma HelloNameKeyList(gap: string, src: string)
    requires src == "name"
    ensures KeysOf([Literal(gap), Placeholder(src), Literal([])]) == ["name"]
  {
    var spans := [Literal(gap), Placeholder(src), Literal([])];
    NameTrimmed();
    assert spans[..2] == [Literal(gap), Placeholder(src)];
    assert spans[..2][..1] == [Literal(gap)];
    assert spans[..2][..1][..0] == [];
    assert KeysOf(spans[..2][..1]) == [];
    assert KeysOf(spans[..2]) == ["name"];
  }

  lemma NameTrimmed()
    ensures Trim("name") == "name"
  {
    assert TrimStart("name") == "name";
    assert TrimEnd("name") == "name";
  }

  lemma NameIdentifiers()
    ensures IdentifiersOf(["name"]) == ["name"]
  {
    NameRoots("name");
    IdentifiersOfOne("name");
  }

  /** `name` has no quotes and is one name. */
  lemma NameRoots(s: string)
    requires s == "name"
    ensures RootNames(StripQuoted(s), 0) == [s]
  {
    StripWithoutQuotes(s, 0);
    assert StripQuoted(s) == s;
    forall k | 0 < k < 4 ensures IsNamePart(s[k]) {
      assert k == 1 || k == 2 || k == 3;
    }
    assert NameRun(s, 0, 4);
    NameRunRoots(s, 0, 4);
    assert RootNames(s, 4) == [] && s[0..4] == s;
  }

  lemma IdentifiersOfOne(a: string)
    ensures IdentifiersOf([a]) == RootNames(StripQuoted(a), 0)
  {
    assert [a][..0] == [];
  }

  /** `buildTemplate('hello, {name}', '...')`: the closure it returns has
      the single parameter `name` and the compiled program of the template. */
  method HelloNameTemplate(parser: TemplateParser, t: string) returns (render: Renderer)
    requires parser.Valid() && t == "hello, {name}"
    modifies parser, parser.cache
    ensures render == Renderer(["name"], ProgramOf(t, "..."), "...")
  {
    HelloNameKeys(t);
    render := BuildTemplate(parser, t, "...");
  }

  /** That closure called with the empty object gives `name` the value
      `...`, and `E.T.` when the call passes that default. */
  method HelloNameDefaults(render: Renderer) returns (plain: Call, withDefault: Call)
    requires render.paramKeys == ["name"] && render.defaultValue == "..."
    ensures plain.bindArgs == withDefault.bindArgs == [Some(""), Some("name"), Some(render.program)]
    ensures plain.args == [JsString("...")]
    ensures withDefault.args == [JsString("E.T.")]
  {
    var empty: JsObject := ObjectRecord([], map[]);
    plain := render.Invoke(empty, "");
    withDefault := render.Invoke(empty, "E.T.");
    assert Named(["name"]) == [Some("name")];
    BindEmptyObject(["name"], "", "...");
    BindEmptyObject(["name"], "E.T.", "...");
  }
}
