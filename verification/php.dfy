/** The handful of PHP built-ins the plugin leans on: `empty()`, `intval()`,
    integer-to-string conversion, `strpos(..) !== false`, `explode`, `implode`,
    `trim`, `str_replace` and `array_unique`, over strings as `seq<char>` and
    arrays as `seq`. */
module Php {

  datatype Option<+T> = None | Some(value: T)

  /** A scalar stored in the plugin's settings array or posted by the
      settings form. PHP `null` never occurs there, so `isset` is key presence. */
  datatype Value = Int(i: int) | Str(s: string)

  /** PHP `empty()` on a scalar: `0`, `""` and `"0"` are empty. */
  predicate IsEmpty(v: Value)
  {
    match v
    case Int(i) => i == 0
    case Str(s) => s == "" || s == "0"
  }

  // ---------------------------------------------------------------------------
  // Decimal integers
  // ---------------------------------------------------------------------------

  predicate IsDigit(c: char)
  {
    '0' <= c <= '9'
  }

  predicate AllDigits(s: string)
  {
    forall i :: 0 <= i < |s| ==> IsDigit(s[i])
  }

  function DigitChar(d: nat): (c: char)
    requires d < 10
    ensures IsDigit(c) && c as int - '0' as int == d
  {
    (d + '0' as int) as char
  }

  /** Decimal rendering of a natural number, most significant digit first. */
  function NatToString(n: nat): (r: string)
    ensures |r| > 0 && AllDigits(r)
    decreases n
  {
    if n < 10 then [DigitChar(n)] else NatToString(n / 10) + [DigitChar(n % 10)]
  }

  /** PHP's `(string)$int`, also what `sprintf('%d', $int)` produces. */
  function IntToString(i: int): (r: string)
    ensures |r| > 0
    ensures i >= 0 ==> AllDigits(r)
    ensures i < 0 ==> r[0] == '-' && AllDigits(r[1..])
  {
    if i < 0 then "-" + NatToString(-i) else NatToString(i)
  }

  /** The value of a string of decimal digits (the empty string is 0). */
  function DigitsValue(s: string): nat
    requires AllDigits(s)
  {
    if |s| == 0 then 0
    else 10 * DigitsValue(s[..|s| - 1]) + (s[|s| - 1] as int - '0' as int)
  }

  /** The longest prefix of `s` made of decimal digits. */
  function LeadingDigits(s: string): (r: string)
    ensures AllDigits(r) && r <= s
    ensures |r| < |s| ==> !IsDigit(s[|r|])
  {
    if |s| > 0 && IsDigit(s[0]) then [s[0]] + LeadingDigits(s[1..]) else ""
  }

  /** The whitespace `intval` skips before a number. */
  predicate IsNumericSpace(c: char)
  {
    c == ' ' || c == '\t' || c == '\n' || c == '\r' || c == '\U{000B}' || c == '\U{000C}'
  }

  function SkipNumericSpace(s: string): (r: string)
    ensures r <= s || (|r| <= |s| && r == s[|s| - |r|..])
    ensures |r| > 0 ==> !IsNumericSpace(r[0])
  {
    if |s| > 0 && IsNumericSpace(s[0]) then SkipNumericSpace(s[1..]) else s
  }

  /** The exponent `e<sign><digits>` (or `E…`) that `s` starts with, or 0
      when it starts with none. */
  function ExponentValue(s: string): int
  {
    if |s| >= 2 && (s[0] == 'e' || s[0] == 'E') then
      var signed := s[1] == '+' || s[1] == '-';
      var ds := LeadingDigits(if signed then s[2..] else s[1..]);
      if |ds| == 0 then 0
      else if s[1] == '-' then -(DigitsValue(ds) as int)
      else DigitsValue(ds)
    else 0
  }

  lemma DigitsAppend(a: string, b: string)
    requires AllDigits(a) && AllDigits(b)
    ensures AllDigits(a + b)
  {
    assert forall i :: 0 <= i < |a + b| ==> (a + b)[i] == if i < |a| then a[i] else b[i - |a|];
  }

  /** `m * 10^scale`, truncated toward zero when `scale` is negative. */
  function Scaled(m: nat, scale: int): nat
    decreases if scale >= 0 then scale else -scale
  {
    if scale == 0 then m
    else if scale > 0 then 10 * Scaled(m, scale - 1)
    else Scaled(m / 10, scale + 1)
  }

  /** The value of integer digits `ip`, fraction digits `fp` and the text
      `rest` after them, which may start with an exponent. */
  function NumberValue(ip: string, fp: string, rest: string): nat
    requires AllDigits(ip) && AllDigits(fp)
  {
    if |ip| + |fp| == 0 then 0
    else
      DigitsAppend(ip, fp);
      Scaled(DigitsValue(ip + fp), ExponentValue(rest) - |fp|)
  }

  /** The unsigned number `s` starts with (digits, an optional `.` and
      fraction, an optional exponent), truncated toward zero as PHP's
      conversion through a float truncates it; 0 when `s` starts with no
      number. */
  function LeadingNumberValue(s: string): nat
  {
    var ip := LeadingDigits(s);
    var r1 := s[|ip|..];
    if |r1| > 0 && r1[0] == '.' then
      var fp := LeadingDigits(r1[1..]);
      NumberValue(ip, fp, r1[1..][|fp|..])
    else NumberValue(ip, "", r1)
  }

  /** `intval` of a string (PHP 7.1 and later): leading whitespace, an
      optional sign, then the leading number, read with its fraction and
      exponent and truncated toward zero; anything else yields 0. */
  function StrToInt(s: string): int
  {
    var t := SkipNumericSpace(s);
    if |t| > 0 && t[0] == '-' then -(LeadingNumberValue(t[1..]) as int)
    else if |t| > 0 && t[0] == '+' then LeadingNumberValue(t[1..])
    else LeadingNumberValue(t)
  }

  /** PHP `intval` of a settings value. */
  function IntVal(v: Value): int
  {
    match v
    case Int(i) => i
    case Str(s) => StrToInt(s)
  }

  /** PHP `(string)` of a settings value. */
  function StrVal(v: Value): string
  {
    match v
    case Int(i) => IntToString(i)
    case Str(s) => s
  }

  /** A run of digits followed by a non-digit is read whole. */
  lemma {:induction false} LeadingDigitsConcat(d: string, x: string)
    requires AllDigits(d) && (|x| == 0 || !IsDigit(x[0]))
    ensures LeadingDigits(d + x) == d
    decreases |d|
  {
    if |d| > 0 {
      assert (d + x)[1..] == d[1..] + x;
      LeadingDigitsConcat(d[1..], x);
      assert d == [d[0]] + d[1..];
    } else {
      assert d + x == x;
    }
  }

  /** A plain run of digits reads back as its decimal value. */
  lemma LeadingNumberOfDigits(d: string)
    requires AllDigits(d) && |d| > 0
    ensures LeadingNumberValue(d) == DigitsValue(d)
  {
    LeadingDigitsConcat(d, "");
    assert d + "" == d;
    assert d[|d|..] == "";
  }

  lemma {:induction false} DigitsValueOfNatToString(n: nat)
    ensures DigitsValue(NatToString(n)) == n
    decreases n
  {
    var r := NatToString(n);
    if n >= 10 {
      DigitsValueOfNatToString(n / 10);
      assert r[..|r| - 1] == NatToString(n / 10);
    }
  }

  /** `intval((string)$i) === $i`: the decimal rendering loses nothing. */
  lemma IntToStringRoundTrip(i: int)
    ensures StrToInt(IntToString(i)) == i
  {
    var r := IntToString(i);
    assert SkipNumericSpace(r) == r;
    if i < 0 {
      assert r[1..] == NatToString(-i);
      LeadingNumberOfDigits(r[1..]);
      DigitsValueOfNatToString(-i);
    } else {
      LeadingNumberOfDigits(r);
      DigitsValueOfNatToString(i);
    }
  }

  /** Reads an optionally negative run of decimal digits off the front of
      `s`: its value and the text after it. */
  function ReadInt(s: string): (r: Option<(int, string)>)
    ensures r.Some? ==> |r.value.1| < |s|
  {
    var neg := |s| > 0 && s[0] == '-';
    var body := if neg then s[1..] else s;
    var ds := LeadingDigits(body);
    var v: int := DigitsValue(ds);
    if |ds| == 0 then None else Some((if neg then -v else v, body[|ds|..]))
  }

  /** The decimal rendering reads back, whatever non-digit text follows. */
  lemma ReadIntRoundTrip(i: int, tail: string)
    requires |tail| == 0 || !IsDigit(tail[0])
    ensures ReadInt(IntToString(i) + tail) == Some((i, tail))
  {
    var n: nat := if i < 0 then -i else i;
    SignedRendering(i, tail);
    DigitsThenTail(NatToString(n), tail);
    DigitsValueOfNatToString(n);
  }

  /** The rendering of `i` is a `-` exactly when `i` is negative, then the
      digits of its magnitude. */
  lemma SignedRendering(i: int, tail: string)
    ensures var s := IntToString(i) + tail;
      var n: nat := if i < 0 then -i else i;
      && (|s| > 0 && s[0] == '-') == (i < 0)
      && (if i < 0 then s[1..] else s) == NatToString(n) + tail
  {
    var s := IntToString(i) + tail;
    if i < 0 {
      assert s == "-" + (NatToString(-i) + tail);
    } else {
      assert IsDigit(NatToString(i)[0]);
    }
  }

  lemma DigitsThenTail(digits: string, tail: string)
    requires AllDigits(digits) && (|tail| == 0 || !IsDigit(tail[0]))
    ensures LeadingDigits(digits + tail) == digits && (digits + tail)[|digits|..] == tail
  {
    LeadingDigitsConcat(digits, tail);
  }

  /** The exponent form: `intval("1e1")` is 10. */
  lemma IntvalExponentForm()
    ensures StrToInt("1e1") == 10
  {
    var s := "1e1";
    assert SkipNumericSpace(s) == s;
    assert LeadingDigits(s) == "1";
    var r1 := s[1..];
    assert r1 == "e1";
    assert r1[1..] == "1";
    assert LeadingDigits("1") == "1";
    assert DigitsValue("1") == 1;
    assert ExponentValue(r1) == 1;
    assert "1" + "" == "1";
    assert Scaled(1, 1) == 10;
  }

  /** The fraction form: `intval("2.5")` is 2, truncated. */
  lemma IntvalFractionForm()
    ensures StrToInt("2.5") == 2
  {
    var s := "2.5";
    assert SkipNumericSpace(s) == s;
    assert LeadingDigits(s) == "2";
    assert s[1..] == ".5";
    var r1 := ".5";
    assert r1[1..] == "5";
    assert LeadingDigits("5") == "5";
    assert r1[2..] == "";
    assert "2" + "5" == "25";
    assert DigitsValue("25") == 25;
    assert Scaled(25, -1) == 2;
    assert r1[1..][|"5"|..] == "";
  }

  /** `min(max($v, $lo), $hi)`. */
  function Clamp(v: int, lo: int, hi: int): (r: int)
    requires lo <= hi
    ensures lo <= r <= hi
    ensures lo <= v <= hi ==> r == v
    ensures v < lo ==> r == lo
    ensures v > hi ==> r == hi
  {
    if v < lo then lo else if v > hi then hi else v
  }

  // ---------------------------------------------------------------------------
  // Substrings
  // ---------------------------------------------------------------------------

  predicate StartsWith(s: string, p: string)
  {
    |p| <= |s| && s[..|p|] == p
  }

  lemma StartsWithCons(s: string, p: string)
    requires |p| > 0
    ensures StartsWith(s, p) <==> |s| > 0 && s[0] == p[0] && StartsWith(s[1..], p[1..])
  {
    if |s| > 0 && s[0] == p[0] && StartsWith(s[1..], p[1..]) {
      assert s[..|p|] == [s[0]] + s[1..][..|p| - 1];
      assert p == [p[0]] + p[1..];
    }
    if StartsWith(s, p) {
      assert s[1..][..|p| - 1] == p[1..];
    }
  }

  /** A prefix made of two parts is the first part followed by the second. */
  lemma StartsWithConcat(s: string, a: string, b: string)
    ensures StartsWith(s, a + b) <==> StartsWith(s, a) && StartsWith(s[|a|..], b)
  {
    if StartsWith(s, a + b) {
      assert s[..|a|] == (a + b)[..|a|] == a;
      assert s[|a|..][..|b|] == (a + b)[|a|..] == b;
    }
    if StartsWith(s, a) && StartsWith(s[|a|..], b) {
      assert s[..|a + b|] == s[..|a|] + s[|a|..][..|b|];
    }
  }

  predicate EndsWith(s: string, p: string)
  {
    |p| <= |s| && s[|s| - |p|..] == p
  }

  /** `t` occurs in `s` at offset `i`. */
  predicate OccursAt(s: string, t: string, i: int)
  {
    0 <= i && i + |t| <= |s| && s[i..i + |t|] == t
  }

  /** `strpos($s, $t) !== false`. */
  predicate Contains(s: string, t: string)
    decreases |s|
  {
    StartsWith(s, t) || (|s| > 0 && Contains(s[1..], t))
  }

  lemma {:induction false} ContainsIffOccurs(s: string, t: string)
    ensures Contains(s, t) <==> exists i :: OccursAt(s, t, i)
    decreases |s|
  {
    if StartsWith(s, t) {
      assert OccursAt(s, t, 0);
    } else if |s| > 0 {
      ContainsIffOccurs(s[1..], t);
      if Contains(s[1..], t) {
        var i :| OccursAt(s[1..], t, i);
        assert s[1..][i..i + |t|] == s[i + 1..i + 1 + |t|];
        assert OccursAt(s, t, i + 1);
      }
      if i :| OccursAt(s, t, i) {
        assert i != 0;
        assert s[1..][i - 1..i - 1 + |t|] == s[i..i + |t|];
        assert OccursAt(s[1..], t, i - 1);
      }
    }
  }

  lemma ContainsSelf(t: string)
    ensures Contains(t, t)
  {
    assert StartsWith(t, t);
  }

  lemma ContainsAt(s: string, t: string, i: int)
    requires OccursAt(s, t, i)
    ensures Contains(s, t)
  {
    ContainsIffOccurs(s, t);
  }

  lemma ContainsPrefix(a: string, b: string, t: string)
    requires StartsWith(a, t)
    ensures Contains(a + b, t)
  {
    assert OccursAt(a + b, t, 0);
    ContainsAt(a + b, t, 0);
  }

  lemma ContainsLeft(a: string, b: string, t: string)
    requires Contains(a, t)
    ensures Contains(a + b, t)
  {
    ContainsIffOccurs(a, t);
    var i :| OccursAt(a, t, i);
    assert (a + b)[i..i + |t|] == a[i..i + |t|];
    ContainsAt(a + b, t, i);
  }

  lemma ContainsRight(a: string, b: string, t: string)
    requires Contains(b, t)
    ensures Contains(a + b, t)
  {
    ContainsIffOccurs(b, t);
    var i :| OccursAt(b, t, i);
    assert (a + b)[|a| + i..|a| + i + |t|] == b[i..i + |t|];
    ContainsAt(a + b, t, |a| + i);
  }

  lemma ContainsTransitive(s: string, t: string, u: string)
    requires Contains(s, t) && Contains(t, u)
    ensures Contains(s, u)
  {
    ContainsIffOccurs(s, t);
    ContainsIffOccurs(t, u);
    var i :| OccursAt(s, t, i);
    var j :| OccursAt(t, u, j);
    assert t == s[i..i + |t|];
    forall k | 0 <= k < |u|
      ensures s[i + j..i + j + |u|][k] == u[k]
    {
      assert u[k] == t[j + k] == s[i + j + k];
    }
    assert s[i + j..i + j + |u|] == u;
    ContainsAt(s, u, i + j);
  }

  lemma JunctionInNeedle(a: string, c: char, b: string, t: string, i: int)
    requires OccursAt(a + [c] + b, t, i) && i <= |a| < i + |t|
    ensures c in t
  {
    assert t[|a| - i] == (a + [c] + b)[|a|];
  }

  /** An occurrence in a concatenation lies in one side unless it covers the
      character at the junction; a separator that the needle does not contain
      therefore splits the search in two. */
  lemma ContainsAcross(a: string, c: char, b: string, t: string)
    requires c !in t
    requires Contains(a + [c] + b, t)
    ensures Contains(a, t) || Contains(b, t)
  {
    var s := a + [c] + b;
    ContainsIffOccurs(s, t);
    var i :| OccursAt(s, t, i);
    if i + |t| <= |a| {
      assert s[i..i + |t|] == a[i..i + |t|];
      ContainsAt(a, t, i);
    } else if i > |a| {
      assert s[i..i + |t|] == b[i - |a| - 1..i - |a| - 1 + |t|];
      ContainsAt(b, t, i - |a| - 1);
    } else {
      JunctionInNeedle(a, c, b, t, i);
    }
  }

  // ---------------------------------------------------------------------------
  // implode / explode / trim / str_replace
  // ---------------------------------------------------------------------------

  /** `implode($sep, $parts)`. */
  function Implode(sep: string, parts: seq<string>): string
  {
    if |parts| == 0 then ""
    else if |parts| == 1 then parts[0]
    else parts[0] + sep + Implode(sep, parts[1..])
  }

  /** Joining two or more parts puts the first part and a separator before
      the join of the rest. */
  lemma ImplodeCons(sep: string, parts: seq<string>)
    requires |parts| > 1
    ensures Implode(sep, parts) == parts[0] + (sep + Implode(sep, parts[1..]))
  {
    assert parts[0] + sep + Implode(sep, parts[1..]) == parts[0] + (sep + Implode(sep, parts[1..]));
  }

  /** Every part occurs in the joined text. */
  lemma {:induction false} ImplodeContainsPart(sep: string, parts: seq<string>, i: int)
    requires 0 <= i < |parts|
    ensures Contains(Implode(sep, parts), parts[i])
    decreases |parts|
  {
    if |parts| == 1 {
      ContainsSelf(parts[0]);
    } else if i == 0 {
      assert parts[0] + sep + Implode(sep, parts[1..]) == parts[0] + (sep + Implode(sep, parts[1..]));
      assert StartsWith(parts[0], parts[0]);
      ContainsPrefix(parts[0], sep + Implode(sep, parts[1..]), parts[0]);
    } else {
      ImplodeContainsPart(sep, parts[1..], i - 1);
      ContainsRight(parts[0] + sep, Implode(sep, parts[1..]), parts[i]);
    }
  }

  /** `explode($d, $s)` for a one-character delimiter: never empty, and one
      more piece than there are delimiters. */
  function Explode(s: string, d: char): (r: seq<string>)
    ensures |r| > 0
    decreases |s|
  {
    if |s| == 0 then [""]
    else
      var rest := Explode(s[1..], d);
      if s[0] == d then [""] + rest else [[s[0]] + rest[0]] + rest[1..]
  }

  function CountChar(s: string, d: char): nat
  {
    if |s| == 0 then 0 else (if s[0] == d then 1 else 0) + CountChar(s[1..], d)
  }

  lemma {:induction false} ExplodeRoundTrip(s: string, d: char)
    ensures Implode([d], Explode(s, d)) == s
    decreases |s|
  {
    if |s| > 0 {
      ExplodeRoundTrip(s[1..], d);
      var rest := Explode(s[1..], d);
      if s[0] == d {
        assert Explode(s, d) == [""] + rest;
        assert s == [d] + s[1..];
      } else {
        var r := Explode(s, d);
        assert r == [[s[0]] + rest[0]] + rest[1..];
        if |rest| == 1 {
          assert s == [s[0]] + rest[0];
        } else {
          assert Implode([d], rest) == rest[0] + [d] + Implode([d], rest[1..]);
          assert r[1..] == rest[1..];
          assert s == [s[0]] + s[1..];
        }
      }
    }
  }

  lemma {:induction false} ExplodePieces(s: string, d: char)
    ensures forall i :: 0 <= i < |Explode(s, d)| ==> d !in Explode(s, d)[i]
    ensures |Explode(s, d)| == CountChar(s, d) + 1
    decreases |s|
  {
    if |s| > 0 {
      ExplodePieces(s[1..], d);
      var rest := Explode(s[1..], d);
      var r := Explode(s, d);
      if s[0] == d {
        assert r == [""] + rest;
      } else {
        assert r == [[s[0]] + rest[0]] + rest[1..];
        forall i | 0 <= i < |r|
          ensures d !in r[i]
        {
          if i > 0 {
            assert r[i] == rest[i];
          }
        }
      }
    }
  }

  /** Gluing the pieces back with the delimiter restores the input; no piece
      contains the delimiter; there is one piece more than delimiters. */
  lemma ExplodeImplode(s: string, d: char)
    ensures Implode([d], Explode(s, d)) == s
    ensures forall i :: 0 <= i < |Explode(s, d)| ==> d !in Explode(s, d)[i]
    ensures |Explode(s, d)| == CountChar(s, d) + 1
  {
    ExplodeRoundTrip(s, d);
    ExplodePieces(s, d);
  }

  /** The characters PHP's `trim` strips by default. */
  predicate IsTrimChar(c: char)
  {
    c == ' ' || c == '\t' || c == '\n' || c == '\r' || c == '\0' || c == '\U{000B}'
  }

  /** The number of trimmed characters `s` starts with. */
  function LeadingTrim(s: string): (n: nat)
    ensures n <= |s|
    ensures forall i :: 0 <= i < n ==> IsTrimChar(s[i])
    ensures n < |s| ==> !IsTrimChar(s[n])
  {
    if |s| > 0 && IsTrimChar(s[0]) then 1 + LeadingTrim(s[1..]) else 0
  }

  /** The number of trimmed characters `s` ends with. */
  function TrailingTrim(s: string): (n: nat)
    ensures n <= |s|
    ensures forall i :: |s| - n <= i < |s| ==> IsTrimChar(s[i])
    ensures n < |s| ==> !IsTrimChar(s[|s| - n - 1])
  {
    if |s| > 0 && IsTrimChar(s[|s| - 1]) then 1 + TrailingTrim(s[..|s| - 1]) else 0
  }

  /** `trim($s)`: what is left once the trimmed characters at both ends are
      cut off; it neither starts nor ends with a trimmed character. */
  function Trim(s: string): (r: string)
    ensures |r| > 0 ==> !IsTrimChar(r[0]) && !IsTrimChar(r[|r| - 1])
    ensures LeadingTrim(s) + |r| <= |s| && r == s[LeadingTrim(s)..LeadingTrim(s) + |r|]
    ensures forall i :: LeadingTrim(s) + |r| <= i < |s| ==> IsTrimChar(s[i])
  {
    var a := LeadingTrim(s);
    var t := s[a..];
    var b := TrailingTrim(t);
    assert forall i :: a + |t| - b <= i < |s| ==> s[i] == t[i - a];
    var r := t[..|t| - b];
    assert r == s[a..a + |r|];
    r
  }

  lemma TrimIdempotent(s: string)
    ensures Trim(Trim(s)) == Trim(s)
  {
  }

  /** `str_replace($p, $r, $s)`: every non-overlapping occurrence of `p`,
      scanning left to right, becomes `r`; an empty `p` changes nothing. */
  function StrReplace(s: string, p: string, r: string): string
    decreases |s|
  {
    if |p| == 0 then s
    else if StartsWith(s, p) then r + StrReplace(s[|p|..], p, r)
    else if |s| == 0 then ""
    else [s[0]] + StrReplace(s[1..], p, r)
  }

  lemma {:induction false} StrReplaceAbsent(s: string, p: string, r: string)
    requires !Contains(s, p)
    ensures StrReplace(s, p, r) == s
    decreases |s|
  {
    if |p| > 0 && |s| > 0 {
      StrReplaceAbsent(s[1..], p, r);
    }
  }

  /** `p` occurs nowhere in `s` before index `i`. */
  predicate NoOccurrenceBefore(s: string, p: string, i: int)
  {
    forall j :: 0 <= j < i ==> !OccursAt(s, p, j)
  }

  /** When `p` occurs at `i` and nowhere before it, and not at all after it,
      `str_replace` swaps exactly that occurrence. */
  lemma {:induction false} StrReplaceOnce(s: string, p: string, r: string, i: int)
    requires |p| > 0 && OccursAt(s, p, i) && NoOccurrenceBefore(s, p, i)
    requires !Contains(s[i + |p|..], p)
    ensures StrReplace(s, p, r) == s[..i] + r + s[i + |p|..]
    decreases i
  {
    var rest := s[i + |p|..];
    if i == 0 {
      assert StrReplace(s, p, r) == r + rest by {
        assert StartsWith(s, p);
        StrReplaceAbsent(rest, p, r);
      }
      assert s[..i] + r + rest == r + rest;
    } else {
      var t := s[1..];
      var pre := t[..i - 1];
      assert StrReplace(s, p, r) == [s[0]] + StrReplace(t, p, r) by {
        assert !OccursAt(s, p, 0);
        StrReplaceSkip(s, p, r);
      }
      assert StrReplace(t, p, r) == pre + r + rest by {
        ShiftedOccurrences(s, p, i);
        assert t[i - 1 + |p|..] == rest;
        StrReplaceOnce(t, p, r, i - 1);
      }
      assert s[..i] == [s[0]] + pre;
      assert [s[0]] + (pre + r + rest) == ([s[0]] + pre) + r + rest;
    }
  }

  /** Where `p` does not occur at the head, `str_replace` keeps the head. */
  lemma StrReplaceSkip(s: string, p: string, r: string)
    requires |p| > 0 && |s| > 0 && !OccursAt(s, p, 0)
    ensures StrReplace(s, p, r) == [s[0]] + StrReplace(s[1..], p, r)
  {
    assert !StartsWith(s, p) by {
      assert |p| <= |s| ==> s[..|p|] == s[0..|p|];
    }
  }

  /** Dropping the head shifts every occurrence left by one. */
  lemma ShiftedOccurrences(s: string, p: string, i: int)
    requires 0 < i && OccursAt(s, p, i) && NoOccurrenceBefore(s, p, i)
    ensures OccursAt(s[1..], p, i - 1) && NoOccurrenceBefore(s[1..], p, i - 1)
  {
    forall j | 0 <= j < i - 1
      ensures !OccursAt(s[1..], p, j)
    {
      ShiftedOccurrence(s, p, j);
    }
    ShiftedOccurrence(s, p, i - 1);
  }

  lemma ShiftedOccurrence(s: string, p: string, j: int)
    requires |s| > 0 && 0 <= j
    ensures OccursAt(s[1..], p, j) <==> OccursAt(s, p, j + 1)
  {
    if j + |p| <= |s| - 1 {
      assert s[1..][j..j + |p|] == s[j + 1..j + 1 + |p|];
    }
  }

  lemma {:induction false} StrReplacePresent(s: string, p: string, r: string)
    requires |p| > 0 && Contains(s, p)
    ensures Contains(StrReplace(s, p, r), r)
    decreases |s|
  {
    if StartsWith(s, p) {
      ContainsPrefix(r, StrReplace(s[|p|..], p, r), r);
    } else {
      StrReplacePresent(s[1..], p, r);
      ContainsRight([s[0]], StrReplace(s[1..], p, r), r);
    }
  }

  // ---------------------------------------------------------------------------
  // Arrays used as lists
  // ---------------------------------------------------------------------------

  predicate NoDups<T(==)>(s: seq<T>)
  {
    forall i, j :: 0 <= i < j < |s| ==> s[i] != s[j]
  }

  lemma NoDupsAppend<T>(a: seq<T>, b: seq<T>)
    requires NoDups(a) && NoDups(b)
    requires forall i, j :: 0 <= i < |a| && 0 <= j < |b| ==> a[i] != b[j]
    ensures NoDups(a + b)
  {
    forall i, j | 0 <= i < j < |a + b|
      ensures (a + b)[i] != (a + b)[j]
    {
      if j < |a| {
      } else if i >= |a| {
        assert (a + b)[i] == b[i - |a|] && (a + b)[j] == b[j - |a|];
      } else {
        assert (a + b)[i] == a[i] && (a + b)[j] == b[j - |a|];
      }
    }
  }

  /** `array_unique`: keeps the first occurrence of every value, in order. */
  function ArrayUnique<T(==)>(s: seq<T>): (r: seq<T>)
    ensures NoDups(r)
    ensures forall i :: 0 <= i < |s| ==> s[i] in r
    ensures forall i :: 0 <= i < |r| ==> r[i] in s
    ensures |r| <= |s|
  {
    if |s| == 0 then []
    else
      var r := ArrayUnique(s[..|s| - 1]);
      if s[|s| - 1] in r then r else r + [s[|s| - 1]]
  }

  /** A list without repeats is left as it is. */
  lemma {:induction false} ArrayUniqueOfNoDups<T>(s: seq<T>)
    requires NoDups(s)
    ensures ArrayUnique(s) == s
  {
    if |s| > 0 {
      var p := s[..|s| - 1];
      ArrayUniqueOfNoDups(p);
      assert s[|s| - 1] !in p;
      assert s == p + [s[|s| - 1]];
    }
  }

  /** Appending never disturbs the first occurrences already kept:
      `array_unique(array_merge($a, $b))` starts with `array_unique($a)`. */
  lemma {:induction false} ArrayUniqueKeepsPrefix<T>(a: seq<T>, b: seq<T>)
    ensures ArrayUnique(a) <= ArrayUnique(a + b)
    decreases |b|
  {
    if |b| == 0 {
      assert a + b == a;
    } else {
      var b' := b[..|b| - 1];
      var x := b[|b| - 1];
      assert a + b == (a + b') + [x];
      ArrayUniqueKeepsPrefix(a, b');
      ArrayUniqueSnoc(a + b', x);
      PrefixExtend(ArrayUnique(a), ArrayUnique(a + b'), [x]);
    }
  }

  /** One more value is kept exactly when it is new. */
  lemma ArrayUniqueSnoc<T>(s: seq<T>, x: T)
    ensures ArrayUnique(s + [x]) == if x in ArrayUnique(s) then ArrayUnique(s) else ArrayUnique(s) + [x]
  {
    assert (s + [x])[..|s|] == s;
  }

  lemma PrefixExtend<T>(p: seq<T>, r: seq<T>, x: seq<T>)
    requires p <= r
    ensures p <= r + x
  {
    assert (r + x)[..|p|] == r[..|p|];
  }

  /** Appending values that are already present changes nothing. */
  lemma {:induction false} ArrayUniqueAbsorbs<T>(a: seq<T>, b: seq<T>)
    requires NoDups(a) && forall i :: 0 <= i < |b| ==> b[i] in a
    ensures ArrayUnique(a + b) == a
    decreases |b|
  {
    if |b| == 0 {
      assert a + b == a;
      ArrayUniqueOfNoDups(a);
    } else {
      var ab := a + b;
      assert ab[..|ab| - 1] == a + b[..|b| - 1];
      ArrayUniqueAbsorbs(a, b[..|b| - 1]);
      assert ab[|ab| - 1] == b[|b| - 1];
    }
  }
}
