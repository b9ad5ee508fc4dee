/** The weight compositor of `modify_search_query`: it moves the host's title
    comparison into a weighted OR-group together with every plugin condition
    and puts that group where the host's content comparison was. */
module WeightCompositor {
  import opened Php
  import opened MySql
  import opened Pcre
  import opened Settings
  import opened ClauseBuilder

  // ---------------------------------------------------------------------------
  // Weight of one condition
  // ---------------------------------------------------------------------------

  const ExcerptToken := "post_excerpt"
  const SkuToken := "sku_meta"
  const AttrTermsToken := "attr_terms"
  const AttrMetaToken := "attr_meta"

  /** The weight the compositor gives a condition, found by looking for
      substrings anywhere in its SQL text, in this order. */
  function ClassifyWeight(sql: string, w: WeightTable): int
  {
    if Contains(sql, ExcerptToken) then w.excerpt
    else if Contains(sql, SkuToken) then w.sku
    else if Contains(sql, AttrTermsToken) || Contains(sql, AttrMetaToken) then w.attribute
    else 1
  }

  /** The weight each field is meant to get: categories and tags have no
      weight setting and keep the default of 1. */
  function FieldWeight(f: Field, w: WeightTable): int
  {
    match f
    case Excerpt => w.excerpt
    case Sku => w.sku
    case Attributes => w.attribute
    case _ => 1
  }

  /** `"({$e} * {$weight})"`. */
  function WeightedTerm(e: string, weight: int): string
  {
    "(" + e + " * " + IntToString(weight) + ")"
  }

  /** The weighted term carries the condition and the multiplier, which
      reads back as the weight. */
  lemma WeightedTermCarriesWeight(e: string, w: int)
    ensures var t := WeightedTerm(e, w);
      && StartsWith(t, "(" + e + " * ") && EndsWith(t, ")") && |t| >= |e| + 5
      && StrToInt(t[|e| + 4..|t| - 1]) == w
  {
    var t := WeightedTerm(e, w);
    IntToStringRoundTrip(w);
    assert t == ("(" + e + " * ") + IntToString(w) + ")";
    assert t[|e| + 4..|t| - 1] == IntToString(w);
  }

  // ---------------------------------------------------------------------------
  // Substring facts used to classify the conditions
  // ---------------------------------------------------------------------------

  lemma {:induction false} NotContainsShort(s: string, t: string)
    requires |s| < |t|
    ensures !Contains(s, t)
    decreases |s|
  {
    if |s| > 0 {
      NotContainsShort(s[1..], t);
    }
  }

  lemma NotContainsChar(s: string, t: string, c: char)
    requires c in t && c !in s
    ensures !Contains(s, t)
  {
    ContainsIffOccurs(s, t);
  }

  /** Splitting at a character the needle lacks. */
  lemma NotContainsSplit(a: string, c: char, b: string, t: string)
    requires c !in t && !Contains(a, t) && !Contains(b, t)
    ensures !Contains(a + [c] + b, t)
  {
    if Contains(a + [c] + b, t) {
      ContainsAcross(a, c, b, t);
    }
  }

  predicate IsToken(tk: string)
  {
    tk == ExcerptToken || tk == SkuToken || tk == AttrTermsToken || tk == AttrMetaToken
  }

  /** Each token has an unescaped underscore after its first character and
      contains neither a quote nor a space. */
  lemma TokenShape(tk: string) returns (k: int)
    requires IsToken(tk)
    ensures 0 < k < |tk| && tk[k] == '_' && tk[k - 1] != '\\'
    ensures '\'' !in tk && ' ' !in tk && |tk| > 5
  {
    if tk == ExcerptToken { k := 4; }
    else if tk == SkuToken { k := 3; }
    else { k := 4; }
  }

  /** The quoted LIKE pattern holds no token: every `_` in it is escaped,
      and each token has a bare `_`. */
  lemma QuotedPatternHasNoToken(term: string, tk: string)
    requires IsToken(tk)
    ensures !Contains(Quote(LikePattern(term)), tk)
  {
    var k := TokenShape(tk);
    var re := RealEscape(LikePattern(term));
    assert !Contains(re, tk) by {
      QuotedPatternUnderscores(term);
      NoBareUnderscoreWord(re, tk, k);
    }
    QuotedNoNeedle(re, tk);
  }

  /** Quotes around a text add no occurrence of a needle without quotes. */
  lemma QuotedNoNeedle(x: string, t: string)
    requires '\'' !in t && |t| > 1 && !Contains(x, t)
    ensures !Contains("'" + x + "'", t)
  {
    NotContainsShort("", t);
    NotContainsSplit(x, '\'', "", t);
    assert x + ['\''] + "" == x + "'";
    NotContainsSplit("", '\'', x + "'", t);
    assert "" + ['\''] + (x + "'") == "'" + x + "'";
  }

  /** Neither does the operator in front of it. */
  lemma LikeOperandHasNoToken(term: string, tk: string)
    requires IsToken(tk)
    ensures !Contains("LIKE " + Quote(LikePattern(term)), tk)
  {
    var q := Quote(LikePattern(term));
    var _ := TokenShape(tk);
    QuotedPatternHasNoToken(term, tk);
    NotContainsShort("LIKE", tk);
    NotContainsSplit("LIKE", ' ', q, tk);
    assert "LIKE" + [' '] + q == "LIKE " + q;
  }

  /** A token occurs in `col + " " + rest` exactly when it occurs in `col`,
      if `rest` holds none. */
  lemma TokenInPrefixOnly(col: string, rest: string, tk: string)
    requires IsToken(tk) && !Contains(rest, tk)
    ensures Contains(col + " " + rest, tk) <==> Contains(col, tk)
  {
    var _ := TokenShape(tk);
    assert col + " " + rest == col + [' '] + rest;
    if Contains(col, tk) {
      ContainsLeft(col, " " + rest, tk);
      assert col + (" " + rest) == col + " " + rest;
    } else {
      NotContainsSplit(col, ' ', rest, tk);
    }
  }

  /** In LIKE mode the term cannot supply a token: the tokens in the
      condition are exactly those of its column. */
  lemma LikeSqlTokens(col: string, term: string, tk: string)
    requires IsToken(tk)
    ensures Contains(MatchSql(col, false, term), tk) <==> Contains(col, tk)
  {
    var rest := "LIKE " + Quote(LikePattern(term));
    assert MatchSql(col, false, term) == col + " " + rest;
    LikeOperandHasNoToken(term, tk);
    TokenInPrefixOnly(col, rest, tk);
  }

  /** LIKE-mode conditions get their classification from the column alone. */
  lemma LikeSqlClassifiesAsColumn(col: string, term: string, w: WeightTable)
    ensures ClassifyWeight(MatchSql(col, false, term), w) == ClassifyWeight(col, w)
  {
    LikeSqlTokens(col, term, ExcerptToken);
    LikeSqlTokens(col, term, SkuToken);
    LikeSqlTokens(col, term, AttrTermsToken);
    LikeSqlTokens(col, term, AttrMetaToken);
  }

  lemma ExcerptColumnClassifies(posts: string, w: WeightTable)
    ensures ClassifyWeight(posts + ".post_excerpt", w) == w.excerpt
  {
    ContainsPrefix(ExcerptToken, "", ExcerptToken);
    assert ExcerptToken + "" == ExcerptToken;
    ContainsRight(posts + ".", ExcerptToken, ExcerptToken);
    assert posts + "." + ExcerptToken == posts + ".post_excerpt";
  }

  /** The SKU column names the SKU table and not the excerpt. */
  lemma SkuColumnTokens(col: string, rest: string)
    requires col == SkuToken + rest && 'p' !in col
    ensures Contains(col, SkuToken) && !Contains(col, ExcerptToken)
  {
    NotContainsChar(col, ExcerptToken, 'p');
    assert StartsWith(SkuToken, SkuToken);
    ContainsPrefix(SkuToken, rest, SkuToken);
  }

  lemma SkuColumnClassifies(col: string, w: WeightTable)
    requires col == "sku_meta.meta_value"
    ensures ClassifyWeight(col, w) == w.sku
  {
    SkuColumnTokens(col, ".meta_value");
  }

  /** An attribute column names neither the excerpt nor the SKU table. */
  lemma AttrColumnTokens(col: string, tk: string, rest: string)
    requires tk == AttrTermsToken || tk == AttrMetaToken
    requires col == tk + rest && 'p' !in col && 'k' !in col
    ensures Contains(col, tk) && !Contains(col, ExcerptToken) && !Contains(col, SkuToken)
  {
    NotContainsChar(col, ExcerptToken, 'p');
    NotContainsChar(col, SkuToken, 'k');
    assert StartsWith(tk, tk);
    ContainsPrefix(tk, rest, tk);
  }

  lemma AttrColumnClassifies(col: string, i: int, w: WeightTable)
    requires i == 0 ==> col == "attr_terms.name"
    requires i != 0 ==> col == "attr_meta.meta_value"
    ensures ClassifyWeight(col, w) == w.attribute
  {
    if i == 0 {
      AttrColumnTokens(col, AttrTermsToken, ".name");
    } else {
      AttrColumnTokens(col, AttrMetaToken, ".meta_value");
    }
  }

  /** A term-name column `<table>.name` whose nine-letter table name has a
      character `c` that `attr_meta` lacks holds no token. */
  lemma TermColumnTokens(col: string, a: string, c: char, b: string)
    requires col == a + [c] + b + ['.'] + "name"
    requires |a| + |b| == 8 && c !in AttrMetaToken && 'p' !in col && 'k' !in col
    ensures !Contains(col, ExcerptToken) && !Contains(col, SkuToken)
    ensures !Contains(col, AttrTermsToken) && !Contains(col, AttrMetaToken)
  {
    var table := a + [c] + b;
    NotContainsChar(col, ExcerptToken, 'p');
    NotContainsChar(col, SkuToken, 'k');
    NotContainsShort("name", AttrTermsToken);
    NotContainsShort("name", AttrMetaToken);
    NotContainsShort(table, AttrTermsToken);
    NotContainsSplit(table, '.', "name", AttrTermsToken);
    NotContainsShort(a, AttrMetaToken);
    NotContainsShort(b, AttrMetaToken);
    NotContainsSplit(a, c, b, AttrMetaToken);
    NotContainsSplit(table, '.', "name", AttrMetaToken);
  }

  lemma TermColumnClassifies(col: string, w: WeightTable)
    requires col == "cat_terms.name" || col == "tag_terms.name"
    ensures ClassifyWeight(col, w) == 1
  {
    if col == "cat_terms.name" {
      CatTermsColumnTokens();
    } else {
      TagTermsColumnTokens();
    }
    ClassifyNoToken(col, w);
  }

  lemma CatTermsColumnTokens()
    ensures NoToken("cat_terms.name")
  {
    TermColumnTokens("cat_terms.name", "", 'c', "at_terms");
  }

  lemma TagTermsColumnTokens()
    ensures NoToken("tag_terms.name")
  {
    TermColumnTokens("tag_terms.name", "ta", 'g', "_terms");
  }

  /** Text holding none of the four tokens. */
  predicate NoToken(sql: string)
  {
    && !Contains(sql, ExcerptToken) && !Contains(sql, SkuToken)
    && !Contains(sql, AttrTermsToken) && !Contains(sql, AttrMetaToken)
  }

  lemma ClassifyNoToken(sql: string, w: WeightTable)
    requires NoToken(sql)
    ensures ClassifyWeight(sql, w) == 1
  {
  }

  /** The columns of the fields other than custom fields classify as their
      field. */
  lemma ColumnClassifies(t: Tables, f: Field, i: int, w: WeightTable)
    requires f != CustomFields && 0 <= i < |FieldColumns(t, f)|
    ensures ClassifyWeight(FieldColumns(t, f)[i], w) == FieldWeight(f, w)
  {
    match f
    case Excerpt => ExcerptColumnClassifies(t.posts, w);
    case Sku => SkuColumnClassifies(FieldColumns(t, f)[i], w);
    case Attributes => AttrColumnClassifies(FieldColumns(t, f)[i], i, w);
    case Categories => TermColumnClassifies(FieldColumns(t, f)[i], w);
    case Tags => TermColumnClassifies(FieldColumns(t, f)[i], w);
  }

  /** In LIKE mode every condition other than the custom-field one gets the
      weight of its own field, whatever the search term. */
  lemma LikeConditionWeight(t: Tables, f: Field, i: int, term: string, w: WeightTable)
    requires f != CustomFields && 0 <= i < |FieldColumns(t, f)|
    ensures ClassifyWeight(MatchSql(FieldColumns(t, f)[i], false, term), w) == FieldWeight(f, w)
  {
    LikeSqlClassifiesAsColumn(FieldColumns(t, f)[i], term, w);
    ColumnClassifies(t, f, i, w);
  }

  /** In exact mode the term is quoted but not LIKE-escaped, so a term that
      names another field's table or column changes the weight: an exact SKU
      search for `post_excerpt` gets the excerpt weight. */
  lemma ExactTermChangesWeight(col: string, term: string, w: WeightTable)
    requires RealEscape(term) == term && Contains(term, ExcerptToken)
    ensures ClassifyWeight(MatchSql(col, true, term), w) == w.excerpt
  {
    ExactSqlContainsTerm(col, term);
    ContainsTransitive(MatchSql(col, true, term), term, ExcerptToken);
  }

  /** For instance, an exact search for `post_excerpt` in any column. */
  lemma ExactExcerptTerm(col: string, w: WeightTable)
    ensures ClassifyWeight(MatchSql(col, true, ExcerptToken), w) == w.excerpt
  {
    ExcerptTokenPlain();
    ContainsSelf(ExcerptToken);
    ExactTermChangesWeight(col, ExcerptToken, w);
  }

  lemma ExcerptTokenPlain()
    ensures RealEscape(ExcerptToken) == ExcerptToken
  {
    RealEscapePlain(ExcerptToken);
  }

  /** An exact-mode condition contains a term that needs no escaping. */
  lemma ExactSqlContainsTerm(col: string, term: string)
    requires RealEscape(term) == term
    ensures Contains(MatchSql(col, true, term), term)
  {
    assert MatchSql(col, true, term) == (col + " = '") + (term + "'");
    assert StartsWith(term, term);
    ContainsPrefix(term, "'", term);
    ContainsRight(col + " = '", term + "'", term);
  }

  // ---------------------------------------------------------------------------
  // The host's patterns
  // ---------------------------------------------------------------------------

  /** What the host's regular-expression engine reports for the two patterns
      the compositor uses: the first match of the title comparison
      `\(<posts>.post_title LIKE .*?\)` and all matches of the content
      comparison `\(\s*<posts>.post_content LIKE .*?\s*\)`. */
  datatype HostPatterns = HostPatterns(title: string -> Option<Span>, content: string -> seq<Span>)

  ghost predicate ValidPatterns(p: HostPatterns)
  {
    && (forall w :: p.title(w).Some? ==> SpanIn(w, p.title(w).value))
    && (forall w :: ValidMatches(w, p.content(w)))
  }

  /** `$title_matches[0]` when `preg_match` succeeded. */
  function TitleMatch(p: HostPatterns, where: string): (m: Option<string>)
    requires ValidPatterns(p)
    ensures m.Some? ==> Contains(where, m.value)
  {
    match p.title(where)
    case None => None
    case Some(sp) =>
      assert OccursAt(where, where[sp.start..sp.end], sp.start);
      ContainsAt(where, where[sp.start..sp.end], sp.start);
      Some(where[sp.start..sp.end])
  }

  // ---------------------------------------------------------------------------
  // Composition
  // ---------------------------------------------------------------------------

  /** The result of the title step: the WHERE clause with the title match
      replaced by `1=1`, and the weighted title term, when the title pattern
      matched something non-empty. */
  datatype TitleStep = TitleStep(where: string, terms: seq<string>)

  function NeutraliseTitle(p: HostPatterns, where: string, w: WeightTable): (r: TitleStep)
    requires ValidPatterns(p)
    ensures |r.terms| <= 1
    ensures |r.terms| == 1 <==> TitleMatch(p, where).Some? && !IsEmpty(Str(TitleMatch(p, where).value))
    ensures |r.terms| == 0 ==> r.where == where
    ensures |r.terms| == 1 ==>
              && r.terms == [WeightedTerm(TitleMatch(p, where).value, w.title)]
              && r.where == StrReplace(where, TitleMatch(p, where).value, "1=1")
              && Contains(r.where, "1=1")
  {
    match TitleMatch(p, where)
    case Some(m) =>
      if !IsEmpty(Str(m)) then
        StrReplacePresent(where, m, "1=1");
        TitleStep(StrReplace(where, m, "1=1"), [WeightedTerm(m, w.title)])
      else TitleStep(where, [])
    case None => TitleStep(where, [])
  }

  /** When the title comparison's text occurs in the WHERE clause only where
      the pattern found it, the title step puts `1=1` in exactly that span and
      keeps the comparison, weighted by the title weight, as the first term. */
  lemma TitleStepAtSpan(p: HostPatterns, where: string, w: WeightTable, sp: Span)
    requires ValidPatterns(p) && p.title(where) == Some(sp)
    requires !IsEmpty(Str(where[sp.start..sp.end]))
    requires forall j :: 0 <= j < sp.start ==> !OccursAt(where, where[sp.start..sp.end], j)
    requires !Contains(where[sp.end..], where[sp.start..sp.end])
    ensures NeutraliseTitle(p, where, w) ==
              TitleStep(where[..sp.start] + "1=1" + where[sp.end..], [WeightedTerm(where[sp.start..sp.end], w.title)])
  {
    var m := where[sp.start..sp.end];
    assert OccursAt(where, m, sp.start);
    StrReplaceOnce(where, m, "1=1", sp.start);
  }

  function ConditionTerms(conds: seq<Condition>, w: WeightTable): (r: seq<string>)
    ensures |r| == |conds|
    ensures forall i :: 0 <= i < |conds| ==> r[i] == WeightedTerm(conds[i].sql, ClassifyWeight(conds[i].sql, w))
  {
    if |conds| == 0 then []
    else [WeightedTerm(conds[0].sql, ClassifyWeight(conds[0].sql, w))] + ConditionTerms(conds[1..], w)
  }

  /** In LIKE mode the compositor weights every condition the clause builder
      produces, other than the custom-field ones, by its own field's
      setting. */
  lemma LikeTermsWeighFields(s: Settings, req: Request, t: Tables, w: WeightTable, i: int)
    requires 0 <= i < |BuildClauses(s, req, t).conditions|
    requires BuildClauses(s, req, t).conditions[i].field != CustomFields
    requires !EffectiveExact(s, req, BuildClauses(s, req, t).conditions[i].field)
    ensures var c := BuildClauses(s, req, t).conditions[i];
      ConditionTerms(BuildClauses(s, req, t).conditions, w)[i] == WeightedTerm(c.sql, FieldWeight(c.field, w))
  {
    var c := BuildClauses(s, req, t).conditions[i];
    var k :| 0 <= k < |FieldColumns(t, c.field)| && FieldColumns(t, c.field)[k] == c.column;
    LikeConditionWeight(t, c.field, k, req.term, w);
  }

  /** The weighted terms: the title term (if any) first, then one per
      condition in order. Never empty when there are conditions, so the
      source's fall-back branch for an empty list cannot run. */
  function WeightedTerms(title: TitleStep, conds: seq<Condition>, w: WeightTable): (r: seq<string>)
    ensures |r| == |title.terms| + |conds| && |r| >= |conds|
    ensures r[..|title.terms|] == title.terms
    ensures r[|title.terms|..] == ConditionTerms(conds, w)
    ensures forall i :: 0 <= i < |conds| ==>
              r[|title.terms| + i] == WeightedTerm(conds[i].sql, ClassifyWeight(conds[i].sql, w))
  {
    title.terms + ConditionTerms(conds, w)
  }

  /** `"( " . implode(' OR ', $weighted_conditions) . " )"`. */
  function Group(terms: seq<string>): string
  {
    "( " + Implode(" OR ", terms) + " )"
  }

  /** The compositor as the source writes it: the group is passed to
      `preg_replace` as the replacement string without escaping. */
  function ComposeAsWritten(p: HostPatterns, where: string, conds: seq<Condition>, w: WeightTable): string
    requires ValidPatterns(p)
  {
    if |conds| == 0 then where
    else
      var title := NeutraliseTitle(p, where, w);
      PregReplace(title.where, p.content(title.where), Group(WeightedTerms(title, conds, w)))
  }

  /** The compositor with the replacement escaped, so that the group is
      inserted verbatim at every content match. */
  function Compose(p: HostPatterns, where: string, conds: seq<Condition>, w: WeightTable): (r: string)
    requires ValidPatterns(p)
    ensures |conds| == 0 ==> r == where
    ensures |conds| > 0 ==>
              var title := NeutraliseTitle(p, where, w);
              r == ReplaceVerbatim(title.where, p.content(title.where), Group(WeightedTerms(title, conds, w)))
  {
    if |conds| == 0 then where
    else
      var title := NeutraliseTitle(p, where, w);
      var group := Group(WeightedTerms(title, conds, w));
      PregReplaceEscaped(title.where, p.content(title.where), group);
      PregReplace(title.where, p.content(title.where), EscapeReplacement(group))
  }

  /** When nothing in the group is special to `preg_replace`, the source's
      compositor and the corrected one agree. */
  lemma ComposeAgreesWithoutSpecials(p: HostPatterns, where: string, conds: seq<Condition>, w: WeightTable)
    requires ValidPatterns(p) && |conds| > 0
    requires Plain(Group(WeightedTerms(NeutraliseTitle(p, where, w), conds, w)))
    ensures ComposeAsWritten(p, where, conds, w) == Compose(p, where, conds, w)
  {
    var title := NeutraliseTitle(p, where, w);
    var g := Group(WeightedTerms(title, conds, w));
    EscapePlain(g);
  }

  /** The group of one exact-match condition on a term quoting leaves alone:
      the term sits between the column comparison and the multiplier. */
  lemma ExactGroupShape(col: string, d: string, w: int)
    requires RealEscape(d) == d
    ensures Group([WeightedTerm(MatchSql(col, true, d), w)])
         == ("( " + "(" + col + " = " + "'") + d + ("'" + " * " + IntToString(w) + ")" + " )")
  {
    var m := MatchSql(col, true, d);
    assert m == (col + " = ") + (("'" + d) + "'");
    var e := WeightedTerm(m, w);
    assert Group([e]) == ("( " + e) + " )" by {
      assert Implode(" OR ", [e]) == e;
    }
    Regroup("( ", "(", col, " = ", "'", d, " * ", IntToString(w), ")", " )");
  }

  lemma Regroup(o1: string, o2: string, col: string, eq: string, q: string, d: string, star: string, iw: string, c1: string, c2: string)
    ensures (o1 + ((((o2 + ((col + eq) + ((q + d) + q))) + star) + iw) + c1)) + c2
         == (o1 + o2 + col + eq + q) + d + (q + star + iw + c1 + c2)
  {
  }

  lemma DollarZeroPlain()
    ensures RealEscape("$0") == "$0"
  {
    RealEscapePlain("$0");
  }

  lemma MiddleDiffers(pre: string, a: string, b: string, post: string)
    requires a != b
    ensures pre + a + post != pre + b + post
  {
    assert (pre + a + post)[|pre|..|pre| + |a|] == a;
    assert (pre + b + post)[|pre|..|pre| + |b|] == b;
  }

  /** A rendered weight is read literally by a replacement. */
  lemma WeightIsPlain(w: int)
    ensures Plain(IntToString(w))
  {
    var r := IntToString(w);
    forall i | 0 <= i < |r|
      ensures r[i] != '\\' && r[i] != '$'
    {
      if w < 0 && i > 0 { assert r[i] == r[1..][i - 1]; }
    }
  }

  /** The source's compositor mangles an exact-match term `$0` in any column
      free of `\` and `$`: the group it inserts at a content match is not the
      group it built, because `$0` stands for the matched text; the corrected
      compositor inserts the group itself. */
  lemma DollarTermCounterexample(col: string, w: int, whole: string)
    requires Plain(col) && whole != "$0"
    ensures var g := Group([WeightedTerm(MatchSql(col, true, "$0"), w)]);
      && Expand(g, whole) != g
      && Expand(EscapeReplacement(g), whole) == g
  {
    var pre := "( " + "(" + col + " = " + "'";
    var post := "'" + " * " + IntToString(w) + ")" + " )";
    DollarZeroPlain();
    ExactGroupShape(col, "$0", w);
    assert Plain("( ") && Plain("(") && Plain(" = ") && Plain("'") && Plain(" * ") && Plain(")") && Plain(" )");
    PlainAppend("( ", "(");
    PlainAppend("( " + "(", col);
    PlainAppend("( " + "(" + col, " = ");
    PlainAppend("( " + "(" + col + " = ", "'");
    WeightIsPlain(w);
    PlainAppend("'", " * ");
    PlainAppend("'" + " * ", IntToString(w));
    PlainAppend("'" + " * " + IntToString(w), ")");
    PlainAppend("'" + " * " + IntToString(w) + ")", " )");
    assert post[0] == '\'';
    DollarZeroIsTheMatch(pre, post, whole);
    MiddleDiffers(pre, whole, "$0", post);
    ExpandEscaped(pre + "$0" + post, whole);
  }

  /** The discrepancy in the source's compositor itself: with one content
      match and no title match, an exact-match condition for `$0` makes the
      source put the matched text where the corrected compositor puts the
      group. */
  lemma ComposeAsWrittenDiffers(p: HostPatterns, where: string, c: Condition, w: WeightTable)
    requires ValidPatterns(p) && p.title(where).None? && |p.content(where)| == 1
    requires Plain(c.column) && c.sql == MatchSql(c.column, true, "$0")
    requires var m := p.content(where)[0]; where[m.start..m.end] != "$0"
    ensures ComposeAsWritten(p, where, [c], w) != Compose(p, where, [c], w)
  {
    var title := NeutraliseTitle(p, where, w);
    assert title == TitleStep(where, []);
    var ms := p.content(where);
    var m := ms[0];
    var g := Group(WeightedTerms(title, [c], w));
    assert WeightedTerms(title, [c], w) == [WeightedTerm(MatchSql(c.column, true, "$0"), ClassifyWeight(c.sql, w))];
    DollarTermCounterexample(c.column, ClassifyWeight(c.sql, w), where[m.start..m.end]);
    var pre := where[..m.start];
    var post := where[m.end..];
    assert ms == [m];
    PregReplaceOne(where, m, g, g);
    assert ComposeAsWritten(p, where, [c], w) == pre + Expand(g, where[m.start..m.end]) + post;
    assert Compose(p, where, [c], w) == pre + g + post;
    MiddleDiffers(pre, Expand(g, where[m.start..m.end]), g, post);
  }
}
