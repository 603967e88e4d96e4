/**
 * The value escaper of the `/generate` handler: before a value is put into
 * the template, each of `&`, `%`, `$`, `_` and `#` gains a leading
 * backslash and `^` becomes `\^{}`. Every other character, including `\`,
 * `{` and `}`, is copied unchanged.
 */
module Escaper {

  /** The six characters the handler escapes. */
  predicate IsSpecial(c: char) {
    c == '&' || c == '%' || c == '$' || c == '_' || c == '#' || c == '^'
  }

  /** What one input character becomes in the escaped text. */
  function EscapeChar(c: char): (r: string)
    ensures !IsSpecial(c) ==> r == [c]
    ensures IsSpecial(c) ==> 2 <= |r| && r[0] == '\\' && r[1] == c
    ensures IsSpecial(c) && c != '^' ==> r == ['\\', c]
    ensures c == '^' ==> r == "\\^{}"
    ensures forall k :: 2 <= k < |r| ==> !IsSpecial(r[k])
  {
    match c
    case '&' => "\\&"
    case '%' => "\\%"
    case '$' => "\\$"
    case '_' => "\\_"
    case '#' => "\\#"
    case '^' => "\\^{}"
    case _ => [c]
  }

  /** The escaped text: each character replaced by what EscapeChar makes of it. */
  function Escape(s: string): (r: string)
  {
    if s == [] then [] else EscapeChar(s[0]) + Escape(s[1..])
  }

  /**
   * No special character of escaped text is bare: each one stands right
   * after a backslash (so none stands at index 0).
   */
  lemma {:induction false} EscapeNoBareSpecial(s: string)
    ensures forall i :: 0 <= i < |Escape(s)| && IsSpecial(Escape(s)[i]) ==> 0 < i && Escape(s)[i - 1] == '\\'
  {
    if s != [] {
      EscapeNoBareSpecial(s[1..]);
      var e, x := EscapeChar(s[0]), Escape(s[1..]);
      assert Escape(s) == e + x;
      forall i | 0 <= i < |e + x| && IsSpecial((e + x)[i])
        ensures 0 < i && (e + x)[i - 1] == '\\'
      {
        if i >= |e| {
          assert (e + x)[i] == x[i - |e|];
          assert (e + x)[i - 1] == x[i - |e| - 1];
        }
      }
    }
  }

  /** Escaping distributes over concatenation: it works character by character. */
  lemma {:induction false} EscapeConcat(a: string, b: string)
    ensures Escape(a + b) == Escape(a) + Escape(b)
  {
    if a == [] {
      assert a + b == b;
    } else {
      assert (a + b)[0] == a[0] && (a + b)[1..] == a[1..] + b;
      EscapeConcat(a[1..], b);
    }
  }

  /** Text without any of the six special characters is left as it is. */
  lemma {:induction false} EscapePlain(s: string)
    requires forall i :: 0 <= i < |s| ==> !IsSpecial(s[i])
    ensures Escape(s) == s
  {
    if s != [] {
      EscapePlain(s[1..]);
    }
  }

  /** How many characters one input character becomes. */
  lemma EscapeCharLength(c: char)
    ensures |EscapeChar(c)| == 1 + (if c == '&' || c == '%' || c == '$' || c == '_' || c == '#' then 1 else 0)
                                 + (if c == '^' then 3 else 0)
  {
  }

  /**
   * The escaped length: one extra character per `&`, `%`, `$`, `_` and `#`,
   * three extra per `^`.
   */
  lemma {:induction false} EscapeLength(s: string)
    ensures |Escape(s)| == |s| + multiset(s)['&'] + multiset(s)['%'] + multiset(s)['$']
                             + multiset(s)['_'] + multiset(s)['#'] + 3 * multiset(s)['^']
  {
    if s != [] {
      var c, t := s[0], s[1..];
      EscapeLength(t);
      EscapeCharLength(c);
      assert s == [c] + t;
      assert multiset(s) == multiset{c} + multiset(t);
    }
  }

  /** The two halves of the example below, escaped separately. */
  lemma EscapeExampleHalves()
    ensures Escape("A & B") + Escape("_Co") == "A \\& B\\_Co"
  {
  }

  /** A value with an ampersand and an underscore. */
  lemma EscapeExample()
    ensures Escape("A & B_Co") == "A \\& B\\_Co"
  {
    assert "A & B" + "_Co" == "A & B_Co";
    EscapeConcat("A & B", "_Co");
    EscapeExampleHalves();
  }

  /**
   * Reads escaped text back: `\^{}` gives `^`, a backslash before one of the
   * other five special characters is dropped, everything else is copied.
   */
  function Unescape(s: string): string
    decreases |s|
  {
    if 4 <= |s| && s[..4] == "\\^{}" then ['^'] + Unescape(s[4..])
    else if 2 <= |s| && s[0] == '\\' && IsSpecial(s[1]) && s[1] != '^' then [s[1]] + Unescape(s[2..])
    else if s == [] then []
    else [s[0]] + Unescape(s[1..])
  }

  /** Unescaping one escaped character in front of escaped text. */
  lemma UnescapeStep(c: char, rest: string)
    ensures Unescape(EscapeChar(c) + Escape(rest)) == [c] + Unescape(Escape(rest))
  {
    var e, x := EscapeChar(c), Escape(rest);
    var s := e + x;
    if c == '^' {
      assert s[..4] == "\\^{}" && s[4..] == x;
    } else if IsSpecial(c) {
      assert s[1] == c && s[2..] == x;
    } else if c == '\\' {
      assert s[1..] == x;
      if x != [] {
        EscapeNoBareSpecial(rest);
        assert !IsSpecial(x[0]);
      }
    } else {
      assert s[0] == c && s[1..] == x;
    }
  }

  /** Escaping loses nothing: Unescape is its inverse. */
  lemma {:induction false} UnescapeEscape(s: string)
    ensures Unescape(Escape(s)) == s
  {
    if s != [] {
      UnescapeStep(s[0], s[1..]);
      UnescapeEscape(s[1..]);
    }
  }

  /** `str.replace` with a one-character pattern: every occurrence of `from` becomes `to`. */
  function ReplaceChar(s: string, from: char, to: string): (r: string)
  {
    if s == [] then [] else (if s[0] == from then to else [s[0]]) + ReplaceChar(s[1..], from, to)
  }

  /** The handler's literal chain of six replacements, in its order. */
  function EscapeChain(s: string): string
  {
    var v := ReplaceChar(ReplaceChar(ReplaceChar(s, '&', "\\&"), '%', "\\%"), '$', "\\$");
    ReplaceChar(ReplaceChar(ReplaceChar(v, '_', "\\_"), '#', "\\#"), '^', "\\^{}")
  }

  lemma {:induction false} ReplaceCharConcat(a: string, b: string, from: char, to: string)
    ensures ReplaceChar(a + b, from, to) == ReplaceChar(a, from, to) + ReplaceChar(b, from, to)
  {
    if a == [] {
      assert a + b == b;
    } else {
      assert (a + b)[0] == a[0] && (a + b)[1..] == a[1..] + b;
      ReplaceCharConcat(a[1..], b, from, to);
    }
  }

  lemma {:induction false} ReplaceCharAbsent(s: string, from: char, to: string)
    requires forall i :: 0 <= i < |s| ==> s[i] != from
    ensures ReplaceChar(s, from, to) == s
  {
    if s != [] {
      ReplaceCharAbsent(s[1..], from, to);
    }
  }

  lemma ChainConcat(a: string, b: string)
    ensures EscapeChain(a + b) == EscapeChain(a) + EscapeChain(b)
  {
    var a1, b1 := ReplaceChar(a, '&', "\\&"), ReplaceChar(b, '&', "\\&");
    ReplaceCharConcat(a, b, '&', "\\&");
    var a2, b2 := ReplaceChar(a1, '%', "\\%"), ReplaceChar(b1, '%', "\\%");
    ReplaceCharConcat(a1, b1, '%', "\\%");
    var a3, b3 := ReplaceChar(a2, '$', "\\$"), ReplaceChar(b2, '$', "\\$");
    ReplaceCharConcat(a2, b2, '$', "\\$");
    var a4, b4 := ReplaceChar(a3, '_', "\\_"), ReplaceChar(b3, '_', "\\_");
    ReplaceCharConcat(a3, b3, '_', "\\_");
    var a5, b5 := ReplaceChar(a4, '#', "\\#"), ReplaceChar(b4, '#', "\\#");
    ReplaceCharConcat(a4, b4, '#', "\\#");
    ReplaceCharConcat(a5, b5, '^', "\\^{}");
  }

  lemma ReplaceCharSingle(c: char, from: char, to: string)
    ensures ReplaceChar([c], from, to) == if c == from then to else [c]
  {
    assert [c][1..] == [];
  }

  /** One replacement step applied to what an earlier step produced for `c`. */
  lemma ReplaceCharStep(c: char, s: string, from: char, to: string)
    requires from != '\\'
    requires s == [c] || (s == ['\\', c] && c != from)
    ensures ReplaceChar(s, from, to) == if s == [c] && c == from then to else s
  {
    if s == [c] {
      ReplaceCharSingle(c, from, to);
    } else {
      ReplaceCharAbsent(s, from, to);
    }
  }

  /** On one character the chain agrees with EscapeChar: no step rewrites what an earlier step wrote. */
  lemma ChainChar(c: char)
    ensures EscapeChain([c]) == EscapeChar(c)
  {
    var s1 := ReplaceChar([c], '&', "\\&");
    ReplaceCharSingle(c, '&', "\\&");
    var s2 := ReplaceChar(s1, '%', "\\%");
    ReplaceCharStep(c, s1, '%', "\\%");
    var s3 := ReplaceChar(s2, '$', "\\$");
    ReplaceCharStep(c, s2, '$', "\\$");
    var s4 := ReplaceChar(s3, '_', "\\_");
    ReplaceCharStep(c, s3, '_', "\\_");
    var s5 := ReplaceChar(s4, '#', "\\#");
    ReplaceCharStep(c, s4, '#', "\\#");
    if s5 == [c] {
      ReplaceCharSingle(c, '^', "\\^{}");
    } else {
      ReplaceCharAbsent(s5, '^', "\\^{}");
    }
  }

  /** The six-step replacement chain computes exactly the per-character escape. */
  lemma {:induction false} ChainIsEscape(s: string)
    ensures EscapeChain(s) == Escape(s)
  {
    if s != [] {
      assert s == [s[0]] + s[1..];
      ChainConcat([s[0]], s[1..]);
      ChainChar(s[0]);
      ChainIsEscape(s[1..]);
    }
  }
}
