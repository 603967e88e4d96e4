/**
 * The one pattern the handler compiles per key K,
 * `(\\newcommand{\\K}{)(.*?)}`, and one `re.sub` pass with it, written as a
 * scanner over the document text.
 *
 * A match is the literal prefix `\newcommand{\K}{` followed by the shortest
 * run of non-newline characters that ends at a `}`; the scan goes left to
 * right, replaces each match and resumes after it, and copies one character
 * where no match starts.
 */
module Declarations {
  import opened Wrappers

  /** Characters of a key the model accepts: letters, digits and `_`, none of them special in a pattern. */
  predicate IsIdentChar(c: char) {
    ('a' <= c <= 'z') || ('A' <= c <= 'Z') || ('0' <= c <= '9') || c == '_'
  }

  predicate ValidKey(key: string) {
    forall i :: 0 <= i < |key| ==> IsIdentChar(key[i])
  }

  /** The literal text a declaration of `key` starts with: `\newcommand{\key}{`. */
  function DeclPrefix(key: string): string {
    "\\newcommand{\\" + key + "}{"
  }

  predicate StartsWith(s: string, p: string) {
    |p| <= |s| && s[..|p|] == p
  }

  /**
   * Where `(.*?)}` stops when it is tried at the start of `s`: the index of
   * the first `}`, provided no newline comes before it; None when a newline
   * or the end of the text comes first.
   */
  function BodyEnd(s: string): (r: Option<nat>)
    ensures r.Some? ==> r.value < |s| && s[r.value] == '}'
    ensures r.Some? ==> forall k :: 0 <= k < r.value ==> s[k] != '}' && s[k] != '\n'
    ensures r.None? ==> forall j :: 0 <= j < |s| && s[j] == '}' ==> exists k :: 0 <= k < j && s[k] == '\n'
  {
    if s == [] then None
    else if s[0] == '}' then Some(0)
    else if s[0] == '\n' then None
    else match BodyEnd(s[1..])
      case None => None
      case Some(j) => Some(j + 1)
  }

  /**
   * The length of the match of prefix `p` + body + `}` at the start of `s`,
   * if the pattern matches there.
   */
  function MatchAt(s: string, p: string): (r: Option<nat>)
    ensures r.Some? ==> |p| < r.value <= |s| && s[..|p|] == p && s[r.value - 1] == '}'
    ensures r.Some? ==> forall k :: |p| <= k < r.value - 1 ==> s[k] != '}' && s[k] != '\n'
    ensures r.None? ==> !StartsWith(s, p) || forall j :: |p| <= j < |s| && s[j] == '}' ==> exists k :: |p| <= k < j && s[k] == '\n'
  {
    if !StartsWith(s, p) then None
    else match BodyEnd(s[|p|..])
      case None =>
        assert forall j :: |p| <= j < |s| ==> s[|p|..][j - |p|] == s[j];
        None
      case Some(j) => Some(|p| + j + 1)
  }

  /**
   * One `re.sub` pass: every match (found left to right, never overlapping)
   * becomes `r`; every other character is copied.
   */
  function ReplaceDecls(doc: string, p: string, r: string): string
    decreases |doc|
  {
    if doc == [] then []
    else match MatchAt(doc, p)
      case Some(n) => r + ReplaceDecls(doc[n..], p, r)
      case None => [doc[0]] + ReplaceDecls(doc[1..], p, r)
  }

  /** Where no match starts, the pass copies one character and goes on. */
  lemma CopyOne(s: string, p: string, r: string)
    requires s != [] && MatchAt(s, p).None?
    ensures ReplaceDecls(s, p, r) == [s[0]] + ReplaceDecls(s[1..], p, r)
  {
  }

  /** Text in front of which no match starts is copied unchanged. */
  lemma {:induction false} CopyUnmatched(pre: string, rest: string, p: string, r: string)
    requires forall i :: 0 <= i < |pre| ==> MatchAt(pre[i..] + rest, p).None?
    ensures ReplaceDecls(pre + rest, p, r) == pre + ReplaceDecls(rest, p, r)
  {
    if pre == [] {
      assert pre + rest == rest;
    } else {
      var tail := pre[1..];
      assert pre[0..] == pre;
      CopyOne(pre + rest, p, r);
      assert (pre + rest)[1..] == tail + rest;
      forall i | 0 <= i < |tail|
        ensures MatchAt(tail[i..] + rest, p).None?
      {
        assert tail[i..] == pre[i + 1..];
      }
      CopyUnmatched(tail, rest, p, r);
      assert pre == [pre[0]] + tail;
    }
  }

  /** A document in which the pattern matches nowhere is left unchanged. */
  lemma NoMatchIdentity(doc: string, p: string, r: string)
    requires forall i :: 0 <= i < |doc| ==> MatchAt(doc[i..], p).None?
    ensures ReplaceDecls(doc, p, r) == doc
  {
    assert doc + [] == doc;
    assert forall i :: 0 <= i < |doc| ==> doc[i..] + [] == doc[i..];
    CopyUnmatched(doc, [], p, r);
  }

  /** The lazy body stops at the first `}`, which closes a body free of `}` and newlines. */
  lemma {:induction false} BodyEndAt(body: string, rest: string)
    requires forall k :: 0 <= k < |body| ==> body[k] != '}' && body[k] != '\n'
    ensures BodyEnd(body + "}" + rest) == Some(|body|)
  {
    var s := body + "}" + rest;
    if body == [] {
      assert s[0] == '}';
    } else {
      assert s[0] == body[0] && s[1..] == body[1..] + "}" + rest;
      BodyEndAt(body[1..], rest);
    }
  }

  /** A newline before any `}` stops the lazy body: the pattern fails there. */
  lemma {:induction false} BodyEndAtNewline(body: string, rest: string)
    requires forall k :: 0 <= k < |body| ==> body[k] != '}' && body[k] != '\n'
    ensures BodyEnd(body + "\n" + rest) == None
  {
    var s := body + "\n" + rest;
    if body == [] {
      assert s[0] == '\n';
    } else {
      assert s[0] == body[0] && s[1..] == body[1..] + "\n" + rest;
      BodyEndAtNewline(body[1..], rest);
    }
  }

  /** A declaration whose body holds no `}` and no newline is one match: it becomes `r`. */
  lemma DeclarationReplaced(p: string, body: string, rest: string, r: string)
    requires forall k :: 0 <= k < |body| ==> body[k] != '}' && body[k] != '\n'
    ensures ReplaceDecls(p + body + "}" + rest, p, r) == r + ReplaceDecls(rest, p, r)
  {
    var s := p + body + "}" + rest;
    ClosedMatch(p, body, rest);
    assert s[|p| + |body| + 1..] == rest;
  }

  /** After the prefix, a newline before any `}` means no match starts here. */
  lemma UnclosedNoMatch(p: string, body: string, rest: string)
    requires forall k :: 0 <= k < |body| ==> body[k] != '}' && body[k] != '\n'
    ensures MatchAt(p + body + "\n" + rest, p).None?
  {
    var s := p + body + "\n" + rest;
    assert s[..|p|] == p;
    assert s[|p|..] == body + "\n" + rest;
    BodyEndAtNewline(body, rest);
  }

  /** A prefix, a body free of `}` and newlines, and `}`: the match is exactly that span. */
  lemma ClosedMatch(p: string, body: string, rest: string)
    requires forall k :: 0 <= k < |body| ==> body[k] != '}' && body[k] != '\n'
    ensures MatchAt(p + body + "}" + rest, p) == Some(|p| + |body| + 1)
  {
    var s := p + body + "}" + rest;
    assert s[..|p|] == p;
    assert s[|p|..] == body + "}" + rest;
    BodyEndAt(body, rest);
  }

  /** Where a newline stands, no match starts; the pass copies it. */
  lemma CopyNewline(rest: string, p: string, r: string)
    requires 0 < |p| && p[0] != '\n'
    ensures ReplaceDecls("\n" + rest, p, r) == "\n" + ReplaceDecls(rest, p, r)
  {
    assert MatchAt("\n" + rest, p).None? by {
      NoMatchWithoutFirst("\n" + rest, p);
    }
    CopyOne("\n" + rest, p, r);
    assert ("\n" + rest)[1..] == rest;
  }

  /** A match needs the prefix's first character where it starts. */
  lemma NoMatchWithoutFirst(s: string, p: string)
    requires 0 < |p| && 0 < |s| && s[0] != p[0]
    ensures MatchAt(s, p).None?
  {
  }

  /**
   * A key matches only its own declarations: the prefix for `k1` never
   * starts a declaration of a different key `k2` (so `first` does not match
   * `\newcommand{\firstname}{`).
   */
  lemma KeysMatchExactly(k1: string, k2: string, tail: string)
    requires ValidKey(k1) && ValidKey(k2) && k1 != k2
    ensures !StartsWith(DeclPrefix(k2) + tail, DeclPrefix(k1))
  {
    var p1, s := DeclPrefix(k1), DeclPrefix(k2) + tail;
    if |p1| <= |s| {
      var i: int;
      if |k1| < |k2| {
        i := 13 + |k1|;
        assert s[i] == k2[|k1|] && p1[i] == '}';
      } else if |k2| < |k1| {
        i := 13 + |k2|;
        assert s[i] == '}' && p1[i] == k1[|k2|];
      } else {
        var j :| 0 <= j < |k1| && k1[j] != k2[j];
        i := 13 + j;
        assert s[i] == k2[j] && p1[i] == k1[j];
      }
      assert s[..|p1|][i] != p1[i];
    }
  }

  /** The backslash in front of a key never starts another `\newcommand{\` prefix. */
  lemma KeyIsNotNewcommand(k1: string, k2: string, tail: string)
    requires ValidKey(k2)
    ensures !StartsWith("\\" + k2 + "}" + tail, DeclPrefix(k1))
  {
    var p1, t := DeclPrefix(k1), "\\" + k2 + "}" + tail;
    if |p1| <= |t| {
      var i := if |k2| < 11 then 1 + |k2| else 11;
      assert p1[1..12] == "newcommand{";
      assert t[i] != p1[i];
      assert t[..|p1|][i] != p1[i];
    }
  }

  /**
   * The declaration of another key is copied unchanged, provided its body
   * holds no backslash (which could start a nested declaration).
   */
  lemma OtherDeclarationCopied(k1: string, k2: string, body: string, rest: string, r: string)
    requires ValidKey(k1) && ValidKey(k2) && k1 != k2
    requires forall k :: 0 <= k < |body| ==> body[k] != '\\'
    ensures ReplaceDecls(DeclPrefix(k2) + body + "}" + rest, DeclPrefix(k1), r)
         == DeclPrefix(k2) + body + "}" + ReplaceDecls(rest, DeclPrefix(k1), r)
  {
    var p1, decl := DeclPrefix(k1), DeclPrefix(k2) + body + "}";
    assert |decl| == 16 + |k2| + |body|;
    forall i | 0 <= i < |decl|
      ensures MatchAt(decl[i..] + rest, p1).None?
    {
      var t := decl[i..] + rest;
      if i == 0 {
        assert t == DeclPrefix(k2) + (body + "}" + rest);
        KeysMatchExactly(k1, k2, body + "}" + rest);
      } else if i == 12 {
        assert t == "\\" + k2 + "}" + ("{" + body + "}" + rest);
        KeyIsNotNewcommand(k1, k2, "{" + body + "}" + rest);
      } else {
        assert t[0] == decl[i];
        if i < 12 {
          assert decl[i] == "\\newcommand{"[i];
        } else if i < 13 + |k2| {
          assert decl[i] == k2[i - 13];
        } else if 15 + |k2| <= i < 15 + |k2| + |body| {
          assert decl[i] == body[i - 15 - |k2|];
        }
        NoMatchWithoutFirst(t, p1);
      }
    }
    CopyUnmatched(decl, rest, p1, r);
  }
}
