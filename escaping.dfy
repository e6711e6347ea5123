/** The two text rewrites of the template compiler (src/template/parser.ts):
    `resolveConflictStatementFlags`, which turns the escaped delimiters `\{` and
    `\}` into the JavaScript escapes `\x7b` and `\x7d` so that the placeholder
    scanner no longer sees them, and `escapeSingleQuoute`, which protects the
    literal text spliced into the single-quoted string of the generated program. */
module Escaping {

  /** Whether `s` holds the two-character sequence `a b` somewhere. */
  predicate HasPair(s: string, a: char, b: char)
  {
    exists i :: 0 <= i < |s| - 1 && s[i] == a && s[i + 1] == b
  }

  /** JavaScript's `s.replace(/ab/g, rep)` for a two-character literal pattern:
      occurrences are found left to right, never overlapping, each replaced by `rep`. */
  function ReplacePair(s: string, a: char, b: char, rep: string): string
  {
    if |s| < 2 then s
    else if s[0] == a && s[1] == b then rep + ReplacePair(s[2..], a, b, rep)
    else [s[0]] + ReplacePair(s[1..], a, b, rep)
  }

  /** The replacement for `\{`: the four characters `\x7b`. */
  const OpenEscape: string := "\\x7b"
  /** The replacement for `\}`: the four characters `\x7d`. */
  const CloseEscape: string := "\\x7d"

  /** `resolveConflictStatementFlags`: every `\{` becomes `\x7b`, then every `\}` becomes `\x7d`. */
  function ResolveConflictFlags(template: string): string
  {
    if template == [] then template
    else ReplacePair(ReplacePair(template, '\\', '{', OpenEscape), '\\', '}', CloseEscape)
  }

  /** A template in normal form: no escaped delimiter is left in it. */
  predicate NoConflictFlags(s: string)
  {
    !HasPair(s, '\\', '{') && !HasPair(s, '\\', '}')
  }

  /** The first character of a replacement result is the first character of
      the input, or the first character of the replacement when the input
      starts with the pattern. */
  lemma {:induction false} ReplacePairHead(s: string, a: char, b: char, rep: string)
    requires |s| > 0 && rep != []
    ensures ReplacePair(s, a, b, rep) != []
    ensures var r := ReplacePair(s, a, b, rep);
      if |s| >= 2 && s[0] == a && s[1] == b then r[0] == rep[0] else r[0] == s[0]
  {
  }

  /** A string without the pattern `a c` keeps it out under replacement of
      `a b`, as long as the replacement cannot create it at its edges; when
      `c == b` this says that the replaced pattern is gone from the result. */
  lemma {:induction false} ReplacePairAvoids(s: string, a: char, b: char, c: char, rep: string)
    requires c == b || !HasPair(s, a, c)
    requires rep != [] && !HasPair(rep, a, c) && rep[0] != c && rep[|rep| - 1] != a
    ensures !HasPair(ReplacePair(s, a, b, rep), a, c)
    decreases |s|
  {
    var r := ReplacePair(s, a, b, rep);
    if |s| < 2 {
    } else if s[0] == a && s[1] == b {
      var rest := ReplacePair(s[2..], a, b, rep);
      ReplacePairAvoids(s[2..], a, b, c, rep);
      assert r == rep + rest;
      if |s| > 2 { ReplacePairHead(s[2..], a, b, rep); }
      forall i | 0 <= i < |r| - 1 ensures !(r[i] == a && r[i + 1] == c) {
        if i < |rep| - 1 {
          assert r[i] == rep[i] && r[i + 1] == rep[i + 1];
        } else if i == |rep| - 1 {
          assert r[i] == rep[|rep| - 1];
        } else {
          assert r[i] == rest[i - |rep|] && r[i + 1] == rest[i - |rep| + 1];
        }
      }
    } else {
      var rest := ReplacePair(s[1..], a, b, rep);
      ReplacePairAvoids(s[1..], a, b, c, rep);
      assert r == [s[0]] + rest;
      ReplacePairHead(s[1..], a, b, rep);
      forall i | 0 <= i < |r| - 1 ensures !(r[i] == a && r[i + 1] == c) {
        if i == 0 {
          if !(|s| >= 3 && s[1] == a && s[2] == b) {
            assert r[1] == s[1];
            assert !(s[0] == a && s[1] == c);
          }
        } else {
          assert r[i] == rest[i - 1] && r[i + 1] == rest[i];
        }
      }
    }
  }

  /** Replacement changes nothing in a string that does not hold the pattern. */
  lemma {:induction false} ReplacePairUnchanged(s: string, a: char, b: char, rep: string)
    requires !HasPair(s, a, b)
    ensures ReplacePair(s, a, b, rep) == s
    decreases |s|
  {
    if |s| >= 2 {
      assert !(s[0] == a && s[1] == b);
      assert !HasPair(s[1..], a, b) by {
        forall i | 0 <= i < |s| - 2 ensures !(s[1..][i] == a && s[1..][i + 1] == b) {
          assert s[1..][i] == s[i + 1] && s[1..][i + 1] == s[i + 2];
        }
      }
      ReplacePairUnchanged(s[1..], a, b, rep);
    }
  }

  /** The normal form has no `\{` and no `\}` left in it. */
  lemma ResolvedHasNoConflictFlags(template: string)
    ensures NoConflictFlags(ResolveConflictFlags(template))
  {
    if template != [] {
      var once := ReplacePair(template, '\\', '{', OpenEscape);
      ReplacePairAvoids(template, '\\', '{', '{', OpenEscape);
      ReplacePairAvoids(once, '\\', '}', '{', CloseEscape);
      ReplacePairAvoids(once, '\\', '}', '}', CloseEscape);
    }
  }

  /** A template without escaped delimiters is its own normal form. */
  lemma ResolveUnchanged(template: string)
    requires NoConflictFlags(template)
    ensures ResolveConflictFlags(template) == template
  {
    if template != [] {
      ReplacePairUnchanged(template, '\\', '{', OpenEscape);
      ReplacePairUnchanged(template, '\\', '}', CloseEscape);
    }
  }

  /** Normalising twice is normalising once. */
  lemma ResolveIdempotent(template: string)
    ensures ResolveConflictFlags(ResolveConflictFlags(template)) == ResolveConflictFlags(template)
  {
    ResolvedHasNoConflictFlags(template);
    ResolveUnchanged(ResolveConflictFlags(template));
  }

  /** The escape of one character of literal text: a single quote gets a
      backslash in front of it, every other character stays as it is. */
  function EscapeChar(c: char): string
  {
    if c == '\'' then "\\'" else [c]
  }

  /** `escapeSingleQuoute`. The pattern `(?=[^\\]|^)'` puts its guard in a
      lookahead, which inspects the quote itself rather than the character
      before it, so the guard always passes: EVERY single quote is escaped,
      including one that already follows a backslash. */
  function EscapeSingleQuotes(s: string): string
  {
    if s == [] then s else EscapeChar(s[0]) + EscapeSingleQuotes(s[1..])
  }

  /** The inverse of the escaping, as an independent reference: `\'` is read
      as a quote and every other character as itself. It is not how
      JavaScript reads a string literal, where `\\` is one backslash. */
  function UnescapeSingleQuotes(s: string): string
  {
    if |s| >= 2 && s[0] == '\\' && s[1] == '\'' then "'" + UnescapeSingleQuotes(s[2..])
    else if s == [] then s
    else [s[0]] + UnescapeSingleQuotes(s[1..])
  }

  /** The escaped text never begins with a quote. */
  lemma EscapeHead(s: string)
    requires s != []
    ensures EscapeSingleQuotes(s) != [] && EscapeSingleQuotes(s)[0] != '\''
  {
  }

  /** Escaping loses nothing: reading the escaped text back gives the input. */
  lemma {:induction false} EscapeRoundTrip(s: string)
    ensures UnescapeSingleQuotes(EscapeSingleQuotes(s)) == s
    decreases |s|
  {
    if s != [] {
      var rest := EscapeSingleQuotes(s[1..]);
      EscapeRoundTrip(s[1..]);
      if s[0] == '\'' {
        assert EscapeSingleQuotes(s) == "\\'" + rest;
        assert ("\\'" + rest)[2..] == rest;
      } else {
        assert EscapeSingleQuotes(s) == [s[0]] + rest;
        if s[0] == '\\' && rest != [] { EscapeHead(s[1..]); }
        assert ([s[0]] + rest)[1..] == rest;
      }
    }
  }

  /** Every quote of the escaped text has a backslash right before it. This
      does not make the text safe inside a JavaScript string literal: a
      backslash the text already had before a quote pairs with the inserted
      one (`it\'s` becomes `it\\'s`, whose quote ends the literal), and a
      trailing backslash escapes the closing quote the compiler appends. */
  lemma {:induction false} EscapedQuotesArePrefixed(s: string)
    ensures forall i :: 0 <= i < |EscapeSingleQuotes(s)| && EscapeSingleQuotes(s)[i] == '\'' ==>
      i > 0 && EscapeSingleQuotes(s)[i - 1] == '\\'
    decreases |s|
  {
    if s != [] {
      var head, rest := EscapeChar(s[0]), EscapeSingleQuotes(s[1..]);
      EscapedQuotesArePrefixed(s[1..]);
      var r := head + rest;
      assert r == EscapeSingleQuotes(s);
      if |s| > 1 { EscapeHead(s[1..]); }
      forall i | 0 <= i < |r| && r[i] == '\'' ensures i > 0 && r[i - 1] == '\\' {
        if i >= |head| {
          assert r[i] == rest[i - |head|];
          if i > |head| { assert r[i - 1] == rest[i - 1 - |head|]; }
        }
      }
    }
  }

  /** Escaping adds exactly one character per quote and keeps every other
      character where it was relative to the rest. */
  function QuoteCount(s: string): nat
  {
    if s == [] then 0 else (if s[0] == '\'' then 1 else 0) + QuoteCount(s[1..])
  }

  lemma {:induction false} EscapeLength(s: string)
    ensures |EscapeSingleQuotes(s)| == |s| + QuoteCount(s)
    decreases |s|
  {
    if s != [] { EscapeLength(s[1..]); }
  }

  /** Text without quotes is left as it is; in particular the empty string. */
  lemma {:induction false} EscapeWithoutQuotes(s: string)
    requires '\'' !in s
    ensures EscapeSingleQuotes(s) == s
    decreases |s|
  {
    if s != [] {
      assert s == [s[0]] + s[1..];
      EscapeWithoutQuotes(s[1..]);
    }
  }

  /** Escaping distributes over concatenation. */
  lemma {:induction false} EscapeAppend(s: string, t: string)
    ensures EscapeSingleQuotes(s + t) == EscapeSingleQuotes(s) + EscapeSingleQuotes(t)
    decreases |s|
  {
    if s != [] {
      assert (s + t)[1..] == s[1..] + t;
      EscapeAppend(s[1..], t);
    } else {
      assert s + t == t;
    }
  }

  /** The guard of the pattern does not stop a quote that follows a
      backslash: `\'` becomes `\\'`. */
  lemma EscapesQuoteAfterBackslash()
    ensures EscapeSingleQuotes("\\'") == "\\\\'"
  {
  }
}
