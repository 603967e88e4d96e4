/**
 * The handler's substitution loop: for each field of the request, in the
 * order the request lists them, the value is escaped and every declaration
 * `\newcommand{\KEY}{...}` of that key in the current text is rewritten.
 */
module Substitution {
  import opened Escaper
  import opened Declarations
  import opened Wrappers

  /** One entry of the request's JSON object, its value already in text form. */
  datatype Field = Field(key: string, value: string)

  /**
   * What a match becomes. AsWritten is the handler's replacement, the
   * prefix and the escaped value, which loses the declaration's closing
   * `}`; BraceRestored puts that `}` back.
   */
  datatype Variant = AsWritten | BraceRestored

  predicate ValidFields(fields: seq<Field>) {
    forall i :: 0 <= i < |fields| ==> ValidKey(fields[i].key)
  }

  function Replacement(key: string, value: string, variant: Variant): string {
    DeclPrefix(key) + Escape(value) + (if variant == BraceRestored then "}" else "")
  }

  /** One pass of the key's pattern over the text. */
  function RewriteKey(doc: string, key: string, value: string, variant: Variant): string
    requires ValidKey(key)
  {
    ReplaceDecls(doc, DeclPrefix(key), Replacement(key, value, variant))
  }

  /** The fields applied one after the other, each pass on the previous pass's result. */
  function SubstituteAll(template: string, fields: seq<Field>, variant: Variant): string
    requires ValidFields(fields)
    decreases |fields|
  {
    if fields == [] then template
    else
      var last := fields[|fields| - 1];
      RewriteKey(SubstituteAll(template, fields[..|fields| - 1], variant), last.key, last.value, variant)
  }

  /** Applying the fields up to and including index `i` is one more pass on the result before it. */
  lemma SubstituteStep(template: string, fields: seq<Field>, i: nat, variant: Variant)
    requires ValidFields(fields) && i < |fields|
    ensures ValidFields(fields[..i]) && ValidFields(fields[..i + 1])
    ensures SubstituteAll(template, fields[..i + 1], variant)
         == RewriteKey(SubstituteAll(template, fields[..i], variant), fields[i].key, fields[i].value, variant)
  {
    assert fields[..i + 1][..i] == fields[..i];
  }

  /** The loop of the handler, reassigning the document once per field. */
  method Substitute(template: string, fields: seq<Field>, variant: Variant) returns (doc: string)
    requires ValidFields(fields)
    ensures doc == SubstituteAll(template, fields, variant)
  {
    doc := template;
    var i := 0;
    while i < |fields|
      invariant 0 <= i <= |fields|
      invariant ValidFields(fields[..i])
      invariant doc == SubstituteAll(template, fields[..i], variant)
    {
      var key := fields[i].key;
      var value := Escape(fields[i].value);
      var prefix := DeclPrefix(key);
      var replacement := prefix + value + (if variant == BraceRestored then "}" else "");
      SubstituteStep(template, fields, i, variant);
      assert replacement == Replacement(key, fields[i].value, variant);
      doc := ReplaceDecls(doc, prefix, replacement);
      i := i + 1;
    }
    assert fields[..|fields|] == fields;
  }

  /**
   * Fields whose keys have no declaration in the template leave it as it
   * is; in particular an empty request yields the template itself.
   */
  lemma {:induction false} UndeclaredKeysKeepTemplate(template: string, fields: seq<Field>, variant: Variant)
    requires ValidFields(fields)
    requires forall i, j :: 0 <= i < |fields| && 0 <= j < |template| ==> MatchAt(template[j..], DeclPrefix(fields[i].key)).None?
    ensures SubstituteAll(template, fields, variant) == template
  {
    if fields != [] {
      var init, last := fields[..|fields| - 1], fields[|fields| - 1];
      UndeclaredKeysKeepTemplate(template, init, variant);
      NoMatchIdentity(template, DeclPrefix(last.key), Replacement(last.key, last.value, variant));
    }
  }

  /** A declaration of the key, with a body free of `}` and newlines, becomes the replacement. */
  lemma RewriteDeclaration(key: string, value: string, body: string, rest: string, variant: Variant)
    requires ValidKey(key)
    requires forall k :: 0 <= k < |body| ==> body[k] != '}' && body[k] != '\n'
    ensures RewriteKey(DeclPrefix(key) + body + "}" + rest, key, value, variant)
         == Replacement(key, value, variant) + RewriteKey(rest, key, value, variant)
  {
    DeclarationReplaced(DeclPrefix(key), body, rest, Replacement(key, value, variant));
  }

  /** Nothing in Escape's output ends a declaration body early when the value has no `}`, `^` or newline. */
  lemma {:induction false} EscapeKeepsBodyClean(v: string)
    requires forall k :: 0 <= k < |v| ==> v[k] != '}' && v[k] != '^' && v[k] != '\n'
    ensures forall k :: 0 <= k < |Escape(v)| ==> Escape(v)[k] != '}' && Escape(v)[k] != '\n'
  {
    if v != [] {
      EscapeKeepsBodyClean(v[1..]);
      var e, x := EscapeChar(v[0]), Escape(v[1..]);
      assert Escape(v) == e + x;
      assert forall k :: 0 <= k < |e| ==> e[k] != '}' && e[k] != '\n';
    }
  }

  /** A declaration followed by a newline, rewritten as the handler does it. */
  lemma AsWrittenRewrite(key: string, value: string, body: string, rest: string)
    requires ValidKey(key)
    requires forall k :: 0 <= k < |body| ==> body[k] != '}' && body[k] != '\n'
    ensures RewriteKey(DeclPrefix(key) + body + "}" + ("\n" + rest), key, value, AsWritten)
         == DeclPrefix(key) + Escape(value) + "\n" + RewriteKey(rest, key, value, AsWritten)
  {
    var p, e := DeclPrefix(key), Escape(value);
    var r, tail := Replacement(key, value, AsWritten), RewriteKey(rest, key, value, AsWritten);
    assert r == p + e;
    RewriteDeclaration(key, value, body, "\n" + rest, AsWritten);
    CopyNewline(rest, p, r);
  }

  /**
   * As written, the handler drops the `}` that closes the declaration: on
   * the usual template line `\newcommand{\K}{default}` followed by a newline,
   * the result starts with `\newcommand{\K}{` + the escaped value and the
   * newline, and the pattern no longer matches there.
   */
  lemma AsWrittenLeavesDeclarationOpen(key: string, value: string, body: string, rest: string)
    requires ValidKey(key)
    requires forall k :: 0 <= k < |body| ==> body[k] != '}' && body[k] != '\n'
    requires forall k :: 0 <= k < |value| ==> value[k] != '}' && value[k] != '^' && value[k] != '\n'
    ensures MatchAt(RewriteKey(DeclPrefix(key) + body + "}" + ("\n" + rest), key, value, AsWritten), DeclPrefix(key)).None?
  {
    AsWrittenRewrite(key, value, body, rest);
    EscapeKeepsBodyClean(value);
    UnclosedNoMatch(DeclPrefix(key), Escape(value), RewriteKey(rest, key, value, AsWritten));
  }

  /**
   * The concrete case: key `name`, template line `\newcommand{\name}{Default}`
   * and a newline, value `Acme`; the result is `\newcommand{\name}{Acme` and
   * the newline.
   */
  lemma AsWrittenExample(doc: string)
    requires doc == DeclPrefix("name") + "Default}\n"
    ensures RewriteKey(doc, "name", "Acme", AsWritten) == DeclPrefix("name") + "Acme\n"
  {
    var p := DeclPrefix("name");
    assert doc == p + "Default" + "}" + ("\n" + []);
    AsWrittenRewrite("name", "Acme", "Default", []);
    EscapePlain("Acme");
    assert RewriteKey([], "name", "Acme", AsWritten) == [];
    assert p + "Acme" + "\n" + [] == p + "Acme\n";
  }

  /** A declaration rewritten with the closing brace restored. */
  lemma BraceRestoredRewrite(key: string, value: string, body: string, rest: string)
    requires ValidKey(key)
    requires forall k :: 0 <= k < |body| ==> body[k] != '}' && body[k] != '\n'
    ensures RewriteKey(DeclPrefix(key) + body + "}" + rest, key, value, BraceRestored)
         == DeclPrefix(key) + Escape(value) + "}" + RewriteKey(rest, key, value, BraceRestored)
  {
    RewriteDeclaration(key, value, body, rest, BraceRestored);
  }

  /**
   * With the closing brace restored, a rewritten declaration is again a
   * complete declaration of the key whose body is exactly the escaped value.
   */
  lemma BraceRestoredKeepsDeclaration(key: string, value: string, body: string, rest: string)
    requires ValidKey(key)
    requires forall k :: 0 <= k < |body| ==> body[k] != '}' && body[k] != '\n'
    requires forall k :: 0 <= k < |value| ==> value[k] != '}' && value[k] != '^' && value[k] != '\n'
    ensures MatchAt(RewriteKey(DeclPrefix(key) + body + "}" + rest, key, value, BraceRestored), DeclPrefix(key))
         == Some(|DeclPrefix(key)| + |Escape(value)| + 1)
  {
    BraceRestoredRewrite(key, value, body, rest);
    EscapeKeepsBodyClean(value);
    ClosedMatch(DeclPrefix(key), Escape(value), RewriteKey(rest, key, value, BraceRestored));
  }
}
