/** How the plugin's SQL fragments quote the search term, and what the
    database makes of them: `$wpdb->prepare`'s `%s` rendering (escape with
    `mysqli_real_escape_string`, wrap in single quotes), the MySQL lexer's
    reading of a single-quoted literal, `$wpdb->esc_like`, and the `LIKE`
    operator with its default escape character `\`. */
module MySql {
  import opened Php

  // ---------------------------------------------------------------------------
  // Quoting: what `$wpdb->prepare('... %s', $x)` puts in place of `%s`
  // ---------------------------------------------------------------------------

  /** The rewriting `mysqli_real_escape_string` applies to one character. */
  function EscapeChar(c: char): string
  {
    if c == '\0' then "\\0"
    else if c == '\n' then "\\n"
    else if c == '\r' then "\\r"
    else if c == '\\' then "\\\\"
    else if c == '\'' then "\\'"
    else if c == '"' then "\\\""
    else if c == '\U{001A}' then "\\Z"
    else [c]
  }

  function RealEscape(s: string): string
  {
    if |s| == 0 then "" else EscapeChar(s[0]) + RealEscape(s[1..])
  }

  /** Text without special characters is left as it is. */
  lemma {:induction false} RealEscapePlain(x: string)
    requires forall i :: 0 <= i < |x| ==> EscapeChar(x[i]) == [x[i]]
    ensures RealEscape(x) == x
    decreases |x|
  {
    if |x| > 0 {
      RealEscapePlain(x[1..]);
      assert x == [x[0]] + x[1..];
    }
  }

  /** The quoted literal `prepare` substitutes for a `%s` placeholder. */
  function Quote(s: string): string
  {
    "'" + RealEscape(s) + "'"
  }

  lemma RealEscapeAppend(a: string, b: string)
    ensures RealEscape(a + b) == RealEscape(a) + RealEscape(b)
  {
    if |a| > 0 {
      assert (a + b)[0] == a[0];
      assert (a + b)[1..] == a[1..] + b;
      RealEscapeAppend(a[1..], b);
      assert RealEscape(a + b) == EscapeChar(a[0]) + RealEscape(a[1..] + b);
    } else {
      assert a + b == b;
    }
  }

  // ---------------------------------------------------------------------------
  // Reading a literal back, as the server's lexer does
  // ---------------------------------------------------------------------------

  /** What a backslash sequence `\c` stands for inside a quoted literal. `\%`
      and `\_` keep their backslash so that `LIKE` still sees them escaped. */
  function Unescape(c: char): string
  {
    if c == '0' then "\0"
    else if c == 'n' then "\n"
    else if c == 'r' then "\r"
    else if c == 't' then "\t"
    else if c == 'b' then "\U{0008}"
    else if c == 'Z' then "\U{001A}"
    else if c == '%' then "\\%"
    else if c == '_' then "\\_"
    else [c]
  }

  function Prepend(p: string, r: Option<(string, string)>): Option<(string, string)>
  {
    match r
    case None => None
    case Some(dr) => Some((p + dr.0, dr.1))
  }

  /** Reads the rest of a single-quoted literal whose opening quote is already
      consumed: the text it denotes and the SQL after its closing quote, or
      `None` when the literal is never closed. A doubled quote stands for one. */
  function ReadBody(s: string): Option<(string, string)>
    decreases |s|
  {
    if |s| == 0 then None
    else if s[0] == '\'' then
      if |s| > 1 && s[1] == '\'' then Prepend("'", ReadBody(s[2..]))
      else Some(("", s[1..]))
    else if s[0] == '\\' then
      if |s| < 2 then None else Prepend(Unescape(s[1]), ReadBody(s[2..]))
    else Prepend([s[0]], ReadBody(s[1..]))
  }

  /** Reads the single-quoted literal `s` starts with. */
  function ReadLiteral(s: string): Option<(string, string)>
  {
    if |s| > 0 && s[0] == '\'' then ReadBody(s[1..]) else None
  }

  lemma ReadBodyBackslash(e: char, tail: string)
    ensures ReadBody(['\\', e] + tail) == Prepend(Unescape(e), ReadBody(tail))
  {
    var s := ['\\', e] + tail;
    assert s[0] == '\\' && s[1] == e && s[2..] == tail;
  }

  lemma ReadBodyPlainChar(c: char, tail: string)
    requires c != '\'' && c != '\\'
    ensures ReadBody([c] + tail) == Prepend([c], ReadBody(tail))
  {
    assert ([c] + tail)[1..] == tail;
  }

  /** The lexer reads one escaped character back as that character. */
  lemma ReadBodyOfEscapeChar(c: char, tail: string)
    ensures ReadBody(EscapeChar(c) + tail) == Prepend([c], ReadBody(tail))
  {
    if EscapeChar(c) == [c] {
      ReadBodyPlainChar(c, tail);
    } else {
      var e := EscapeChar(c)[1];
      assert EscapeChar(c) == ['\\', e];
      assert Unescape(e) == [c];
      ReadBodyBackslash(e, tail);
    }
  }

  lemma {:induction false} ReadBodyOfEscaped(x: string, rest: string)
    requires |rest| == 0 || rest[0] != '\''
    ensures ReadBody(RealEscape(x) + "'" + rest) == Some((x, rest))
    decreases |x|
  {
    if |x| == 0 {
      assert RealEscape(x) + "'" + rest == "'" + rest;
    } else {
      var tail := RealEscape(x[1..]) + "'" + rest;
      assert RealEscape(x) + "'" + rest == EscapeChar(x[0]) + tail;
      ReadBodyOfEscapeChar(x[0], tail);
      ReadBodyOfEscaped(x[1..], rest);
      assert [x[0]] + x[1..] == x;
    }
  }

  /** Whatever the text, the literal `prepare` builds reads back as exactly
      that text and ends exactly where `prepare` put its closing quote, so the
      SQL that follows is never swallowed nor altered (no injection). */
  lemma QuoteRoundTrip(x: string, rest: string)
    requires |rest| == 0 || rest[0] != '\''
    ensures ReadLiteral(Quote(x) + rest) == Some((x, rest))
  {
    ReadBodyOfEscaped(x, rest);
    assert (Quote(x) + rest)[1..] == RealEscape(x) + "'" + rest;
  }

  // ---------------------------------------------------------------------------
  // LIKE patterns
  // ---------------------------------------------------------------------------

  /** `$wpdb->esc_like`: backslash-escapes the LIKE metacharacters `_`, `%`
      and the escape character itself. */
  function EscLikeChar(c: char): string
  {
    if c == '_' || c == '%' || c == '\\' then ['\\', c] else [c]
  }

  function EscLike(s: string): string
  {
    if |s| == 0 then "" else EscLikeChar(s[0]) + EscLike(s[1..])
  }

  /** The pattern the plugin searches with: `'%' . esc_like($term) . '%'`. */
  function LikePattern(t: string): string
  {
    "%" + EscLike(t) + "%"
  }

  /** `v LIKE p` with `\` as escape character, compared character by
      character. */
  function Like(p: string, v: string): bool
    decreases |p| + |v|
  {
    if |p| == 0 then |v| == 0
    else if p[0] == '%' then Like(p[1..], v) || (|v| > 0 && Like(p, v[1..]))
    else if p[0] == '_' then |v| > 0 && Like(p[1..], v[1..])
    else if p[0] == '\\' && |p| >= 2 then |v| > 0 && v[0] == p[1] && Like(p[2..], v[1..])
    else |v| > 0 && v[0] == p[0] && Like(p[1..], v[1..])
  }

  lemma {:induction false} LikePercentAll(v: string)
    ensures Like("%", v)
    decreases |v|
  {
    if |v| > 0 {
      LikePercentAll(v[1..]);
    }
  }

  /** A leading `%` lets the rest of the pattern match any suffix. */
  lemma {:induction false} LikePercentPrefix(q: string, v: string)
    ensures Like("%" + q, v) <==> exists i :: 0 <= i <= |v| && Like(q, v[i..])
    decreases |v|
  {
    var p := "%" + q;
    assert p[0] == '%' && p[1..] == q;
    if |v| > 0 {
      assert Like(p, v) == (Like(q, v) || Like(p, v[1..]));
      LikePercentPrefix(q, v[1..]);
      if Like(p, v) {
        if Like(q, v) {
          assert v[0..] == v;
          assert 0 <= 0 <= |v| && Like(q, v[0..]);
        } else {
          var i :| 0 <= i <= |v| - 1 && Like(q, v[1..][i..]);
          assert v[1..][i..] == v[i + 1..];
          assert 0 <= i + 1 <= |v| && Like(q, v[i + 1..]);
        }
      }
      if exists i :: 0 <= i <= |v| && Like(q, v[i..]) {
        var i :| 0 <= i <= |v| && Like(q, v[i..]);
        if i > 0 {
          assert v[1..][i - 1..] == v[i..];
          assert 0 <= i - 1 <= |v[1..]| && Like(q, v[1..][i - 1..]);
          assert Like(p, v[1..]);
        } else {
          assert v[i..] == v;
        }
      }
    } else {
      assert Like(p, v) == Like(q, v);
      assert v[0..] == v;
      if i :| 0 <= i <= |v| && Like(q, v[i..]) {
        assert i == 0;
      }
    }
  }

  /** An escaped text matches exactly itself, character for character. */
  /** One escaped character of the pattern matches exactly that character. */
  lemma LikeEscapedChar(c: char, q: string, v: string)
    ensures Like(EscLikeChar(c) + q, v) <==> |v| > 0 && v[0] == c && Like(q, v[1..])
  {
    var p := EscLikeChar(c) + q;
    if |EscLikeChar(c)| == 2 {
      assert p[0] == '\\' && p[1] == c && p[2..] == q;
    } else {
      assert p[0] == c && p[1..] == q;
    }
  }

  lemma {:induction false} LikeEscaped(t: string, r: string, v: string)
    ensures Like(EscLike(t) + r, v) <==> StartsWith(v, t) && Like(r, v[|t|..])
    decreases |t|
  {
    if |t| > 0 {
      var c := t[0];
      assert EscLike(t) + r == EscLikeChar(c) + (EscLike(t[1..]) + r);
      LikeEscapedChar(c, EscLike(t[1..]) + r, v);
      StartsWithCons(v, t);
      if |v| > 0 {
        LikeEscaped(t[1..], r, v[1..]);
        if |v| >= |t| {
          assert v[1..][|t| - 1..] == v[|t|..];
        }
      }
    } else {
      assert EscLike(t) + r == r;
    }
  }


  /** `v LIKE '%' . esc_like($t) . '%'` holds exactly when `t` occurs in `v`:
      substring search with every metacharacter of the term taken literally. */
  lemma LikePatternIsSubstring(t: string, v: string)
    ensures Like(LikePattern(t), v) <==> Contains(v, t)
  {
    var q := EscLike(t) + "%";
    assert LikePattern(t) == "%" + q;
    LikePercentPrefix(q, v);
    ContainsIffOccurs(v, t);
    if Contains(v, t) {
      var i :| OccursAt(v, t, i);
      LikeEscaped(t, "%", v[i..]);
      assert v[i..][..|t|] == t;
      LikePercentAll(v[i..][|t|..]);
    }
    if Like(LikePattern(t), v) {
      var i :| 0 <= i <= |v| && Like(q, v[i..]);
      LikeEscaped(t, "%", v[i..]);
      assert v[i..][..|t|] == v[i..i + |t|];
      assert OccursAt(v, t, i);
    }
  }

  // ---------------------------------------------------------------------------
  // Underscores in escaped text
  // ---------------------------------------------------------------------------

  /** Every `_` of `s` comes right after a backslash character;
      `afterBackslash` says whether the character before `s` is one. */
  predicate UnderscoresEscaped(s: string, afterBackslash: bool)
    decreases |s|
  {
    |s| == 0 || ((s[0] == '_' ==> afterBackslash) && UnderscoresEscaped(s[1..], s[0] == '\\'))
  }

  function EndsInBackslash(s: string, before: bool): bool
  {
    if |s| == 0 then before else s[|s| - 1] == '\\'
  }

  lemma {:induction false} UnderscoresEscapedAppend(a: string, b: string, f: bool)
    ensures UnderscoresEscaped(a + b, f) <==> UnderscoresEscaped(a, f) && UnderscoresEscaped(b, EndsInBackslash(a, f))
    decreases |a|
  {
    if |a| > 0 {
      assert (a + b)[1..] == a[1..] + b;
      UnderscoresEscapedAppend(a[1..], b, a[0] == '\\');
    } else {
      assert a + b == b;
    }
  }

  lemma {:induction false} EscLikeUnderscores(t: string, f: bool)
    ensures UnderscoresEscaped(EscLike(t), f)
    decreases |t|
  {
    if |t| > 0 {
      var e := EscLikeChar(t[0]);
      EscLikeUnderscores(t[1..], EndsInBackslash(e, f));
      UnderscoresEscapedAppend(e, EscLike(t[1..]), f);
    }
  }

  lemma {:induction false} RealEscapeUnderscores(x: string, f: bool)
    requires UnderscoresEscaped(x, f)
    ensures UnderscoresEscaped(RealEscape(x), f)
    decreases |x|
  {
    if |x| > 0 {
      var e := EscapeChar(x[0]);
      assert EndsInBackslash(e, f) == (x[0] == '\\');
      RealEscapeUnderscores(x[1..], x[0] == '\\');
      UnderscoresEscapedAppend(e, RealEscape(x[1..]), f);
    }
  }

  /** The quoted LIKE pattern carries no `_` that is not preceded by `\`. */
  lemma QuotedPatternUnderscores(t: string)
    ensures UnderscoresEscaped(RealEscape(LikePattern(t)), false)
  {
    EscLikeUnderscores(t, false);
    UnderscoresEscapedAppend("%", EscLike(t), false);
    UnderscoresEscapedAppend("%" + EscLike(t), "%", false);
    RealEscapeUnderscores(LikePattern(t), false);
  }

  /** Index form: inside such a string, `_` never starts it and always
      follows a backslash. */
  lemma {:induction false} UnderscoresEscapedAt(s: string, f: bool, i: int)
    requires UnderscoresEscaped(s, f)
    requires 0 <= i < |s| && s[i] == '_'
    ensures i == 0 ==> f
    ensures i > 0 ==> s[i - 1] == '\\'
    decreases |s|
  {
    if i > 0 {
      UnderscoresEscapedAt(s[1..], s[0] == '\\', i - 1);
    }
  }

  /** Such a string contains no word that has `_` right after some other
      character, e.g. `sku_meta` or `post_excerpt`. */
  lemma NoBareUnderscoreWord(s: string, w: string, k: int)
    requires UnderscoresEscaped(s, false)
    requires 0 < k < |w| && w[k] == '_' && w[k - 1] != '\\'
    ensures !Contains(s, w)
  {
    ContainsIffOccurs(s, w);
    if Contains(s, w) {
      var i :| OccursAt(s, w, i);
      UnderscoreInsideOccurrence(s, w, k, i);
    }
  }

  lemma UnderscoreInsideOccurrence(s: string, w: string, k: int, i: int)
    requires UnderscoresEscaped(s, false)
    requires OccursAt(s, w, i) && 0 < k < |w| && w[k] == '_'
    ensures w[k - 1] == '\\'
  {
    assert s[i + k] == w[k];
    UnderscoresEscapedAt(s, false, i + k);
    assert s[i + k - 1] == w[k - 1];
  }
}
