/** `preg_replace` as the plugin uses it: the host's regular-expression
    engine reports where the pattern matched (a parameter of the model), and
    PHP splices the replacement string into each match after interpreting the
    back references (`\n`, `$n`, `${n}`) and the escapes (`\\`, `\$`) in it. */
module Pcre {
  import opened Php

  /** A match reported by the regex engine: the subject's characters
      `start` up to (not including) `end`. */
  datatype Span = Span(start: nat, end: nat)

  predicate SpanIn(subject: string, m: Span)
  {
    m.start <= m.end <= |subject|
  }

  /** Matches as `preg_replace` finds them: inside the subject, left to
      right, never overlapping. */
  predicate ValidMatches(subject: string, ms: seq<Span>)
  {
    && (forall i :: 0 <= i < |ms| ==> SpanIn(subject, ms[i]))
    && (forall i :: 0 <= i < |ms| - 1 ==> ms[i].end <= ms[i + 1].start)
  }

  function DigitValue(c: char): nat
    requires IsDigit(c)
  {
    c as int - '0' as int
  }

  /** The back reference `r` starts with, if any: its group number and its
      length. One or two digits after `\` or `$`, or inside `${...}`; a
      backslash or dollar that ends the string (or precedes a NUL) is plain. */
  function BackRef(r: string): (b: Option<(nat, nat)>)
    requires |r| > 0 && (r[0] == '\\' || r[0] == '$')
    ensures b.Some? ==> 2 <= b.value.1 <= |r| && b.value.0 < 100
  {
    if |r| < 2 || r[1] == '\0' then None
    else
      var brace := r[0] == '$' && r[1] == '{';
      var i := if brace then 2 else 1;
      if i < |r| && IsDigit(r[i]) then
        var two := i + 1 < |r| && IsDigit(r[i + 1]);
        var n := if two then 10 * DigitValue(r[i]) + DigitValue(r[i + 1]) else DigitValue(r[i]);
        var j := if two then i + 2 else i + 1;
        if !brace then Some((n, j))
        else if j < |r| && r[j] == '}' then Some((n, j + 1))
        else None
      else None
  }

  /** The text PHP inserts for one match of a pattern without capture groups:
      group 0 is the matched text `whole`, any other group is empty; `\\`
      stands for `\` and `\$` for `$`; every other character is itself. */
  function Expand(r: string, whole: string): string
    decreases |r|
  {
    if |r| == 0 then ""
    else if (r[0] == '\\' || r[0] == '$') && BackRef(r).Some? then
      var n := BackRef(r).value.0;
      var len := BackRef(r).value.1;
      (if n == 0 then whole else "") + Expand(r[len..], whole)
    else if r[0] == '\\' && |r| >= 2 && (r[1] == '\\' || r[1] == '$') then
      [r[1]] + Expand(r[2..], whole)
    else
      [r[0]] + Expand(r[1..], whole)
  }

  /** The subject with every match, from offset `from` on, replaced by
      `insert(matched text)`. */
  function SpliceFrom(subject: string, ms: seq<Span>, from: nat, insert: string -> string): string
    requires ValidMatches(subject, ms)
    requires from <= |subject| && (|ms| > 0 ==> from <= ms[0].start)
    decreases |ms|
  {
    if |ms| == 0 then subject[from..]
    else
      subject[from..ms[0].start]
        + insert(subject[ms[0].start..ms[0].end])
        + SpliceFrom(subject, ms[1..], ms[0].end, insert)
  }

  /** `preg_replace($pattern, $replacement, $subject)` once the engine has
      reported the matches `ms`. */
  function PregReplace(subject: string, ms: seq<Span>, replacement: string): string
    requires ValidMatches(subject, ms)
  {
    SpliceFrom(subject, ms, 0, m => Expand(replacement, m))
  }

  /** Every match replaced by `text` taken literally. */
  function ReplaceVerbatim(subject: string, ms: seq<Span>, text: string): string
    requires ValidMatches(subject, ms)
  {
    SpliceFrom(subject, ms, 0, m => text)
  }

  /** One match: the text before it, the replacement, the text after it. */
  lemma PregReplaceOne(subject: string, m: Span, replacement: string, text: string)
    requires SpanIn(subject, m)
    ensures ValidMatches(subject, [m])
    ensures PregReplace(subject, [m], replacement)
         == subject[..m.start] + Expand(replacement, subject[m.start..m.end]) + subject[m.end..]
    ensures ReplaceVerbatim(subject, [m], text) == subject[..m.start] + text + subject[m.end..]
  {
    var ms := [m];
    assert ms[1..] == [];
    assert SpliceFrom(subject, ms[1..], m.end, r => Expand(replacement, r)) == subject[m.end..];
    assert SpliceFrom(subject, ms[1..], m.end, r => text) == subject[m.end..];
    assert subject[0..m.start] == subject[..m.start];
  }

  /** Backslash-escapes `\` and `$`, which makes a string safe to pass as a
      `preg_replace` replacement. */
  function EscapeReplacement(x: string): string
  {
    if |x| == 0 then ""
    else if x[0] == '\\' || x[0] == '$' then ['\\', x[0]] + EscapeReplacement(x[1..])
    else [x[0]] + EscapeReplacement(x[1..])
  }

  /** An escaped replacement expands back to exactly the text escaped. */
  lemma {:induction false} ExpandEscaped(x: string, whole: string)
    ensures Expand(EscapeReplacement(x), whole) == x
    decreases |x|
  {
    if |x| > 0 {
      ExpandEscaped(x[1..], whole);
      var r := EscapeReplacement(x);
      if x[0] == '\\' || x[0] == '$' {
        assert r[0] == '\\' && r[1] == x[0] && r[2..] == EscapeReplacement(x[1..]);
        assert BackRef(r).None?;
      } else {
        assert r[1..] == EscapeReplacement(x[1..]);
      }
      assert x == [x[0]] + x[1..];
    }
  }

  lemma {:induction false} SpliceFromSame(subject: string, ms: seq<Span>, from: nat, f: string -> string, g: string -> string)
    requires ValidMatches(subject, ms)
    requires from <= |subject| && (|ms| > 0 ==> from <= ms[0].start)
    requires forall m :: f(m) == g(m)
    ensures SpliceFrom(subject, ms, from, f) == SpliceFrom(subject, ms, from, g)
    decreases |ms|
  {
    if |ms| > 0 {
      SpliceFromSame(subject, ms[1..], ms[0].end, f, g);
    }
  }

  /** With the replacement escaped, `preg_replace` inserts the text verbatim
      at every match. */
  lemma PregReplaceEscaped(subject: string, ms: seq<Span>, text: string)
    requires ValidMatches(subject, ms)
    ensures PregReplace(subject, ms, EscapeReplacement(text)) == ReplaceVerbatim(subject, ms, text)
  {
    forall m: string
      ensures Expand(EscapeReplacement(text), m) == text
    {
      ExpandEscaped(text, m);
    }
    SpliceFromSame(subject, ms, 0, m => Expand(EscapeReplacement(text), m), m => text);
  }

  /** Escaping changes nothing in plain text. */
  lemma {:induction false} EscapePlain(x: string)
    requires Plain(x)
    ensures EscapeReplacement(x) == x
    decreases |x|
  {
    if |x| > 0 {
      EscapePlain(x[1..]);
    }
  }

  /** Without matches `preg_replace` returns the subject unchanged. */
  lemma PregReplaceNoMatch(subject: string, replacement: string)
    ensures PregReplace(subject, [], replacement) == subject
  {
  }

  /** Text with neither `\` nor `$`, which a replacement reads literally. */
  predicate Plain(s: string)
  {
    forall i :: 0 <= i < |s| ==> s[i] != '\\' && s[i] != '$'
  }

  lemma PlainAppend(a: string, b: string)
    requires Plain(a) && Plain(b)
    ensures Plain(a + b)
  {
    forall i | 0 <= i < |a + b|
      ensures (a + b)[i] != '\\' && (a + b)[i] != '$'
    {
      if i < |a| { assert (a + b)[i] == a[i]; } else { assert (a + b)[i] == b[i - |a|]; }
    }
  }

  /** Unescaped, `$0` in the replacement stands for the matched text. */
  lemma DollarZeroIsTheMatch(pre: string, post: string, whole: string)
    requires Plain(pre) && Plain(post)
    requires |post| == 0 || !IsDigit(post[0])
    ensures Expand(pre + "$0" + post, whole) == pre + whole + post
  {
    assert pre + "$0" + post == pre + ("$0" + post);
    PlainExpands(pre, "$0" + post, whole);
    var r := "$0" + post;
    assert r[0] == '$' && r[1] == '0';
    assert |r| > 2 ==> r[2] == post[0];
    assert BackRef(r) == Some((0, 2));
    assert r[2..] == post;
    PlainExpands(post, "", whole);
    assert post + "" == post;
  }

  /** Text free of `\` and `$` expands to itself. */
  lemma {:induction false} PlainExpands(p: string, rest: string, whole: string)
    requires Plain(p)
    ensures Expand(p + rest, whole) == p + Expand(rest, whole)
    decreases |p|
  {
    if |p| > 0 {
      assert (p + rest)[1..] == p[1..] + rest;
      PlainExpands(p[1..], rest, whole);
    } else {
      assert p + rest == rest;
    }
  }
}
