/** The clause builder of `modify_search_query`: for every enabled field, the
    JOINs it adds (keyed by alias) and the search condition(s) it adds, in the
    order the blocks of the method run. */
module ClauseBuilder {
  import opened Php
  import opened MySql
  import opened Settings

  /** The host's table names: `$wpdb->posts`, `postmeta`,
      `term_relationships`, `term_taxonomy` and `terms`. */
  datatype Tables = Tables(posts: string, postmeta: string, termRelationships: string, termTaxonomy: string, terms: string)

  /** The keys of the `$joins` array. */
  datatype JoinKey =
    | SkuJoin | CfJoin
    | AttrRel | AttrTax | AttrTerms | AttrMeta
    | CatRel | CatTax | CatTerms
    | TagRel | TagTax | TagTerms

  /** One entry `$joins[key] = sql`. */
  datatype Join = Join(key: JoinKey, sql: string)

  /** The array key as the source spells it. */
  function KeyName(k: JoinKey): string
  {
    match k
    case SkuJoin => "sku"
    case CfJoin => "cf"
    case AttrRel => "attr_rel"
    case AttrTax => "attr_tax"
    case AttrTerms => "attr_terms"
    case AttrMeta => "attr_meta"
    case CatRel => "cat_rel"
    case CatTax => "cat_tax"
    case CatTerms => "cat_terms"
    case TagRel => "tag_rel"
    case TagTax => "tag_tax"
    case TagTerms => "tag_terms"
  }

  /** One entry of `$conditions`. The SQL text is `sql`; `field` and `column`
      record which block produced it and which column the term is compared
      with, and are not part of what the host sees. */
  datatype Condition = Condition(field: Field, column: string, sql: string)

  datatype Clauses = Clauses(joins: seq<Join>, conditions: seq<Condition>)

  /** The fields `modify_search_query` handles, in the order its blocks run.
      Variations are searched by `handle_variation_search` instead. */
  const QueryOrder: seq<Field> := [Sku, CustomFields, Attributes, Categories, Tags, Excerpt]

  /** The meta keys excluded when no custom field list is configured. */
  const InternalMetaKeys: seq<string> :=
    ["_sku", "_price", "_sale_price", "_regular_price", "_stock", "_stock_status", "_tax_class",
     "_weight", "_length", "_width", "_height", "_visibility", "_virtual", "_downloadable"]

  // ---------------------------------------------------------------------------
  // One comparison of a column with the term
  // ---------------------------------------------------------------------------

  function Operator(exact: bool): string
  {
    if exact then " = " else " LIKE "
  }

  /** `prepare("<column> = %s", $term)` in exact mode, otherwise
      `prepare("<column> LIKE %s", '%' . esc_like($term) . '%')`. */
  function MatchSql(column: string, exact: bool, term: string): string
  {
    column + Operator(exact) + Quote(if exact then term else LikePattern(term))
  }

  /** How the database compares a value with the literal it read. */
  predicate Compares(exact: bool, literal: string, v: string)
  {
    if exact then v == literal else Like(literal, v)
  }

  /** Whatever the term contains, the literal after the operator is read back
      as one whole literal that ends the fragment, and the comparison selects
      exactly the values equal to the term (exact mode) or containing it as a
      substring (LIKE mode). */
  lemma MatchSqlMeaning(column: string, exact: bool, term: string, v: string)
    ensures var sql := MatchSql(column, exact, term);
      && StartsWith(sql, column + Operator(exact))
      && var lit := ReadLiteral(sql[|column + Operator(exact)|..]);
      && lit.Some? && lit.value.1 == ""
      && (Compares(exact, lit.value.0, v) <==> if exact then v == term else Contains(v, term))
  {
    var x := if exact then term else LikePattern(term);
    var sql := MatchSql(column, exact, term);
    assert sql == (column + Operator(exact)) + Quote(x);
    assert sql[|column + Operator(exact)|..] == Quote(x) + "";
    QuoteRoundTrip(x, "");
    if !exact {
      LikePatternIsSubstring(term, v);
    }
  }

  // ---------------------------------------------------------------------------
  // Meta-key filters
  // ---------------------------------------------------------------------------

  /** An escaped prefix followed by `%` matches exactly the values starting
      with that prefix. */
  lemma LikePrefixMeaning(t: string, k: string)
    ensures Like(EscLike(t) + "%", k) <==> StartsWith(k, t)
  {
    LikeEscaped(t, "%", k);
    if StartsWith(k, t) {
      LikePercentAll(k[|t|..]);
    }
  }

  /** The pattern `\_%` matches exactly the values starting with `_`. */
  lemma UnderscorePrefixMeaning(k: string)
    ensures Like("\\_%", k) <==> StartsWith(k, "_")
  {
    assert EscLike("_") + "%" == "\\_%";
    LikePrefixMeaning("_", k);
  }

  /** `meta_key NOT LIKE '\_%'` keeps exactly the keys not starting with `_`. */
  lemma HiddenKeyFilterMeaning(k: string)
    ensures ReadLiteral(Quote("\\_%")) == Some(("\\_%", ""))
    ensures Like("\\_%", k) <==> StartsWith(k, "_")
  {
    assert ReadLiteral(Quote("\\_%")) == Some(("\\_%", "")) by {
      QuoteRoundTrip("\\_%", "");
      assert Quote("\\_%") + "" == Quote("\\_%");
    }
    UnderscorePrefixMeaning(k);
  }

  lemma {:induction false} EscLikeAppend(a: string, b: string)
    ensures EscLike(a + b) == EscLike(a) + EscLike(b)
    decreases |a|
  {
    if |a| > 0 {
      assert (a + b)[1..] == a[1..] + b;
      EscLikeAppend(a[1..], b);
    } else {
      assert a + b == b;
    }
  }

  /** `esc_like` leaves text without `_`, `%` and `\` unchanged. */
  lemma {:induction false} EscLikePlain(a: string)
    requires forall i :: 0 <= i < |a| ==> a[i] != '_' && a[i] != '%' && a[i] != '\\'
    ensures EscLike(a) == a
    decreases |a|
  {
    if |a| > 0 {
      EscLikePlain(a[1..]);
    }
  }

  /** A plain prefix followed by `\_%` matches the keys starting with
      the prefix and an underscore. */
  lemma PlainPrefixFilter(pre: string, k: string)
    requires forall i :: 0 <= i < |pre| ==> pre[i] != '_' && pre[i] != '%' && pre[i] != '\\'
    ensures Like(pre + "\\_%", k) <==> StartsWith(k, pre + "_")
  {
    assert Like(pre + "\\_%", k) <==> StartsWith(k, pre) && Like("\\_%", k[|pre|..]) by {
      EscLikePlain(pre);
      LikeEscaped(pre, "\\_%", k);
    }
    if |pre| <= |k| {
      UnderscorePrefixMeaning(k[|pre|..]);
    }
    StartsWithConcat(k, pre, "_");
  }

  /** `attr_meta.meta_key LIKE 'attribute\_%'`: the literal reads back
      whole, and keeps exactly the keys starting with `attribute_`. */
  lemma AttributeKeyFilterMeaning(k: string)
    ensures ReadLiteral(Quote("attribute\\_%")) == Some(("attribute\\_%", ""))
    ensures Like("attribute\\_%", k) <==> StartsWith(k, "attribute_")
  {
    QuoteReadsBackWhole("attribute\\_%");
    AttributePatternMeaning(k);
  }

  lemma AttributePatternMeaning(k: string)
    ensures Like("attribute\\_%", k) <==> StartsWith(k, "attribute_")
  {
    PlainPrefixFilter("attribute", k);
    assert "attribute" + "\\_%" == "attribute\\_%";
    assert "attribute" + "_" == "attribute_";
  }

  lemma QuoteReadsBackWhole(x: string)
    ensures ReadLiteral(Quote(x)) == Some((x, ""))
  {
    QuoteRoundTrip(x, "");
    assert Quote(x) + "" == Quote(x);
  }

  /** Every internal key starts with `_`, so the `NOT LIKE '\_%'` filter
      already excludes each of them and the explicit `!=` list never changes
      the result. */
  lemma InternalKeysAreHidden()
    ensures forall i :: 0 <= i < |InternalMetaKeys| ==> Like("\\_%", InternalMetaKeys[i])
  {
    forall i | 0 <= i < |InternalMetaKeys|
      ensures Like("\\_%", InternalMetaKeys[i])
    {
      var k := InternalMetaKeys[i];
      assert |k| > 0 && k[0] == '_';
      UnderscorePrefixMeaning(k);
    }
  }

  function MapQuoted(prefix: string, xs: seq<string>): (r: seq<string>)
    ensures |r| == |xs| && forall i :: 0 <= i < |xs| ==> r[i] == prefix + Quote(xs[i])
  {
    if |xs| == 0 then [] else [prefix + Quote(xs[0])] + MapQuoted(prefix, xs[1..])
  }

  const KeyEqualsPrefix := "cf_meta.meta_key = "
  const KeyDiffersPrefix := "cf_meta.meta_key != "
  const HiddenKeyPattern := "\\_%"

  /** The meta-key part of the custom-field condition: the configured keys
      joined with OR, or, without a list, every internal key excluded and
      every key starting with `_` excluded. */
  function CustomFieldKeyFilter(names: seq<string>): string
  {
    if |names| > 0 then
      "(" + Implode(" OR ", MapQuoted(KeyEqualsPrefix, names)) + ")"
    else
      "(" + Implode(" AND ", MapQuoted(KeyDiffersPrefix, InternalMetaKeys)) + ")"
        + " AND " + "cf_meta.meta_key NOT LIKE " + Quote(HiddenKeyPattern)
  }

  /** Each test of the key filter compares with a literal that the database
      reads back as exactly the configured (or internal) key. */
  lemma KeyTestReadsBack(prefix: string, xs: seq<string>, i: int)
    requires 0 <= i < |xs|
    ensures var test := MapQuoted(prefix, xs)[i];
      StartsWith(test, prefix) && ReadLiteral(test[|prefix|..]) == Some((xs[i], ""))
  {
    var test := MapQuoted(prefix, xs)[i];
    QuoteRoundTrip(xs[i], "");
    assert Quote(xs[i]) + "" == Quote(xs[i]);
    assert test[|prefix|..] == Quote(xs[i]);
  }

  /** A key test `<prefix><literal>` as the database evaluates it: the
      literal reads back whole, and the key equals it (`eq`) or differs
      from it (`!eq`). */
  predicate KeyTestHolds(prefix: string, test: string, eq: bool, k: string)
  {
    && StartsWith(test, prefix)
    && var lit := ReadLiteral(test[|prefix|..]);
    && lit.Some? && lit.value.1 == ""
    && ((lit.value.0 == k) == eq)
  }

  /** One of the OR-ed `=` tests holds for `k`. */
  predicate AnyTestHolds(prefix: string, xs: seq<string>, k: string)
  {
    exists i :: 0 <= i < |xs| && KeyTestHolds(prefix, MapQuoted(prefix, xs)[i], true, k)
  }

  /** Each of the AND-ed `!=` tests holds for `k`. */
  predicate EveryTestHolds(prefix: string, xs: seq<string>, k: string)
  {
    forall i :: 0 <= i < |xs| ==> KeyTestHolds(prefix, MapQuoted(prefix, xs)[i], false, k)
  }

  /** `meta_key NOT LIKE <literal>` holds for `k`, the literal read back. */
  predicate NotLikeTestHolds(quoted: string, k: string)
  {
    var lit := ReadLiteral(quoted);
    lit.Some? && lit.value.1 == "" && !Like(lit.value.0, k)
  }

  /** Whether the key filter admits meta key `k`, read off the pieces
      `CustomFieldKeyFilter` joins: with names, one of its OR-ed `=` tests
      holds; without, each of its AND-ed `!=` tests holds and `k` is not
      LIKE the quoted pattern. */
  predicate KeyFilterAdmits(names: seq<string>, k: string)
  {
    if |names| > 0 then AnyTestHolds(KeyEqualsPrefix, names, k)
    else EveryTestHolds(KeyDiffersPrefix, InternalMetaKeys, k) && NotLikeTestHolds(Quote(HiddenKeyPattern), k)
  }

  /** With a configured list the custom-field condition admits exactly the
      listed keys; without one, exactly the keys not starting with `_`, so
      the list of internal keys adds nothing to the `NOT LIKE` test. */
  lemma CustomFieldKeyFilterMeaning(names: seq<string>, k: string)
    ensures KeyFilterAdmits(names, k) <==> if |names| > 0 then k in names else !StartsWith(k, "_")
  {
    if |names| > 0 {
      EqualsTestsMeaning(KeyEqualsPrefix, names, k);
    } else {
      UnlistedKeyFilterMeaning(k);
    }
  }

  lemma UnlistedKeyFilterMeaning(k: string)
    ensures KeyFilterAdmits([], k) <==> !StartsWith(k, "_")
  {
    DiffersTestsMeaning(KeyDiffersPrefix, InternalMetaKeys, k);
    HiddenTestMeaning(k);
    InternalKeysStartWithUnderscore();
  }

  lemma HiddenTestMeaning(k: string)
    ensures NotLikeTestHolds(Quote(HiddenKeyPattern), k) <==> !StartsWith(k, "_")
  {
    HiddenKeyFilterMeaning(k);
  }

  /** One of the `=` tests holds exactly when the key is listed. */
  lemma EqualsTestsMeaning(prefix: string, names: seq<string>, k: string)
    ensures AnyTestHolds(prefix, names, k) <==> k in names
  {
    forall i | 0 <= i < |names|
      ensures KeyTestHolds(prefix, MapQuoted(prefix, names)[i], true, k) <==> names[i] == k
    {
      KeyTestMeaning(prefix, names, i, true, k);
    }
    if k in names {
      var i :| 0 <= i < |names| && names[i] == k;
      assert KeyTestHolds(prefix, MapQuoted(prefix, names)[i], true, k);
    }
  }

  /** Every `!=` test holds exactly when the key is none of the excluded ones. */
  lemma DiffersTestsMeaning(prefix: string, ks: seq<string>, k: string)
    ensures EveryTestHolds(prefix, ks, k) <==> k !in ks
  {
    forall i | 0 <= i < |ks|
      ensures KeyTestHolds(prefix, MapQuoted(prefix, ks)[i], false, k) <==> ks[i] != k
    {
      KeyTestMeaning(prefix, ks, i, false, k);
    }
    if k in ks {
      var i :| 0 <= i < |ks| && ks[i] == k;
      assert !KeyTestHolds(prefix, MapQuoted(prefix, ks)[i], false, k);
    }
  }

  lemma KeyTestMeaning(prefix: string, xs: seq<string>, i: int, eq: bool, k: string)
    requires 0 <= i < |xs|
    ensures KeyTestHolds(prefix, MapQuoted(prefix, xs)[i], eq, k) <==> ((xs[i] == k) == eq)
  {
    KeyTestReadsBack(prefix, xs, i);
  }

  lemma InternalKeysStartWithUnderscore()
    ensures forall k :: k in InternalMetaKeys ==> StartsWith(k, "_")
  {
    InternalKeysAreHidden();
    forall i | 0 <= i < |InternalMetaKeys|
      ensures StartsWith(InternalMetaKeys[i], "_")
    {
      UnderscorePrefixMeaning(InternalMetaKeys[i]);
    }
  }

  // ---------------------------------------------------------------------------
  // Per-field JOINs and conditions
  // ---------------------------------------------------------------------------

  /** The keys of the JOINs one field's block adds, in order. */
  function FieldKeys(f: Field): seq<JoinKey>
  {
    match f
    case Sku => [SkuJoin]
    case CustomFields => [CfJoin]
    case Attributes => [AttrRel, AttrTax, AttrTerms, AttrMeta]
    case Categories => [CatRel, CatTax, CatTerms]
    case Tags => [TagRel, TagTax, TagTerms]
    case Excerpt => []
    case Variations => []
  }

  /** The alias each JOIN introduces. */
  function Alias(k: JoinKey): string
  {
    match k
    case SkuJoin => "sku_meta"
    case CfJoin => "cf_meta"
    case AttrRel => "attr_rel"
    case AttrTax => "attr_tax"
    case AttrTerms => "attr_terms"
    case AttrMeta => "attr_meta"
    case CatRel => "cat_rel"
    case CatTax => "cat_tax"
    case CatTerms => "cat_terms"
    case TagRel => "tag_rel"
    case TagTax => "tag_tax"
    case TagTerms => "tag_terms"
  }

  /** The table each JOIN reads. */
  function JoinTable(t: Tables, k: JoinKey): string
  {
    match k
    case SkuJoin | CfJoin | AttrMeta => t.postmeta
    case AttrRel | CatRel | TagRel => t.termRelationships
    case AttrTax | CatTax | TagTax => t.termTaxonomy
    case AttrTerms | CatTerms | TagTerms => t.terms
  }

  /** The `ON` condition of each JOIN. */
  function JoinOn(t: Tables, k: JoinKey): string
  {
    match k
    case SkuJoin => t.posts + ".ID = sku_meta.post_id AND sku_meta.meta_key = '_sku'"
    case CfJoin => t.posts + ".ID = cf_meta.post_id"
    case AttrRel => t.posts + ".ID = attr_rel.object_id"
    case AttrTax => "attr_rel.term_taxonomy_id = attr_tax.term_taxonomy_id"
    case AttrTerms => "attr_tax.term_id = attr_terms.term_id"
    case AttrMeta =>
      t.posts + ".ID = attr_meta.post_id" + " AND " + "attr_meta.meta_key LIKE " + Quote("attribute\\_%")
    case CatRel => t.posts + ".ID = cat_rel.object_id"
    case CatTax => "cat_rel.term_taxonomy_id = cat_tax.term_taxonomy_id AND cat_tax.taxonomy = 'product_cat'"
    case CatTerms => "cat_tax.term_id = cat_terms.term_id"
    case TagRel => t.posts + ".ID = tag_rel.object_id"
    case TagTax => "tag_rel.term_taxonomy_id = tag_tax.term_taxonomy_id AND tag_tax.taxonomy = 'product_tag'"
    case TagTerms => "tag_tax.term_id = tag_terms.term_id"
  }

  /** The JOIN stored under each key: `LEFT JOIN <table> AS <alias> ON …`. */
  function JoinSql(t: Tables, k: JoinKey): string
  {
    "LEFT JOIN " + JoinTable(t, k) + " AS " + Alias(k) + " ON " + JoinOn(t, k)
  }

  /** `column` is qualified by the posts table or by an alias one of `js`
      introduces, so the query can resolve it. */
  predicate ColumnScoped(t: Tables, js: seq<Join>, column: string)
  {
    || StartsWith(column, t.posts + ".")
    || exists j :: 0 <= j < |js| && StartsWith(column, Alias(js[j].key) + ".")
  }

  /** The JOINs one field's block adds, in order. */
  function FieldJoins(t: Tables, f: Field): (js: seq<Join>)
    ensures Keys(js) == FieldKeys(f)
    ensures forall i :: 0 <= i < |js| ==> js[i].sql == JoinSql(t, js[i].key)
  {
    var ks := FieldKeys(f);
    seq(|ks|, i requires 0 <= i < |ks| => Join(ks[i], JoinSql(t, ks[i])))
  }

  /** Every column a block compares is qualified by an alias one of the
      block's own JOINs introduces (the excerpt by the posts table), so the
      block's SQL never refers to a table it did not join. */
  lemma FieldColumnsJoined(t: Tables, f: Field)
    ensures forall i :: 0 <= i < |FieldColumns(t, f)| ==> ColumnScoped(t, FieldJoins(t, f), FieldColumns(t, f)[i])
  {
    var js := FieldJoins(t, f);
    var ks := FieldKeys(f);
    forall i | 0 <= i < |FieldColumns(t, f)|
      ensures ColumnScoped(t, js, FieldColumns(t, f)[i])
    {
      var k := ColumnQualified(t, f, i);
      if f != Excerpt {
        var j :| 0 <= j < |ks| && ks[j] == k;
        assert js[j].key == k;
      }
    }
  }

  /** The columns one field's block compares with the term, in order. */
  function FieldColumns(t: Tables, f: Field): seq<string>
  {
    match f
    case Sku => ["sku_meta.meta_value"]
    case CustomFields => ["cf_meta.meta_value"]
    case Attributes => ["attr_terms.name", "attr_meta.meta_value"]
    case Categories => ["cat_terms.name"]
    case Tags => ["tag_terms.name"]
    case Excerpt => [t.posts + ".post_excerpt"]
    case Variations => []
  }

  /** The alias that qualifies column `i` of field `f`: one of the field's
      own JOIN keys; the excerpt column belongs to the posts table. */
  lemma ColumnQualified(t: Tables, f: Field, i: int) returns (k: JoinKey)
    requires 0 <= i < |FieldColumns(t, f)|
    ensures f == Excerpt ==> StartsWith(FieldColumns(t, f)[i], t.posts + ".")
    ensures f != Excerpt ==> k in FieldKeys(f) && StartsWith(FieldColumns(t, f)[i], Alias(k) + ".")
  {
    var col := FieldColumns(t, f)[i];
    match f
    case Sku =>
      k := SkuJoin;
      QualifiedColumn("sku_meta", "meta_value");
    case CustomFields =>
      k := CfJoin;
      QualifiedColumn("cf_meta", "meta_value");
    case Attributes =>
      if i == 0 {
        k := AttrTerms;
        QualifiedColumn("attr_terms", "name");
      } else {
        k := AttrMeta;
        QualifiedColumn("attr_meta", "meta_value");
      }
    case Categories =>
      k := CatTerms;
      QualifiedColumn("cat_terms", "name");
    case Tags =>
      k := TagTerms;
      QualifiedColumn("tag_terms", "name");
    case Excerpt =>
      k := SkuJoin;
      QualifiedColumn(t.posts, "post_excerpt");
  }

  lemma QualifiedColumn(alias: string, name: string)
    ensures StartsWith(alias + "." + name, alias + ".")
    ensures alias + "." + name == alias + ("." + name)
  {
    assert (alias + "." + name)[..|alias + "."|] == alias + ".";
  }

  /** The conditions one field's block adds: a comparison of each of its
      columns with the term; the custom-field comparison is preceded by the
      meta-key filter. */
  function FieldConditions(t: Tables, f: Field, exact: bool, term: string, names: seq<string>): (cs: seq<Condition>)
    ensures |cs| == |FieldColumns(t, f)|
    ensures forall i :: 0 <= i < |cs| ==>
              cs[i].field == f && cs[i].column == FieldColumns(t, f)[i]
              && EndsWith(cs[i].sql, MatchSql(cs[i].column, exact, term))
    ensures forall i :: 0 <= i < |cs| && f != CustomFields ==> cs[i].sql == MatchSql(cs[i].column, exact, term)
    ensures forall i :: 0 <= i < |cs| && f == CustomFields ==>
              cs[i].sql == CustomFieldKeyFilter(names) + " AND " + MatchSql(cs[i].column, exact, term)
  {
    var cols := FieldColumns(t, f);
    var cs := seq(|cols|, i requires 0 <= i < |cols| =>
      var m := MatchSql(cols[i], exact, term);
      Condition(f, cols[i], if f == CustomFields then CustomFieldKeyFilter(names) + " AND " + m else m));
    assert forall i :: 0 <= i < |cs| ==> EndsWith(cs[i].sql, MatchSql(cs[i].column, exact, term)) by {
      forall i | 0 <= i < |cs|
        ensures EndsWith(cs[i].sql, MatchSql(cs[i].column, exact, term))
      {
        var m := MatchSql(cols[i], exact, term);
        if f == CustomFields {
          var pre := CustomFieldKeyFilter(names) + " AND ";
          assert cs[i].sql == pre + m;
          assert cs[i].sql[|cs[i].sql| - |m|..] == m;
        } else {
          assert cs[i].sql[|cs[i].sql| - |m|..] == m;
        }
      }
    }
    cs
  }

  /** Number of conditions of field `f` one block adds. */
  function ConditionCount(f: Field): nat
  {
    match f
    case Attributes => 2
    case Variations => 0
    case _ => 1
  }

  // ---------------------------------------------------------------------------
  // The whole builder
  // ---------------------------------------------------------------------------

  function Keys(js: seq<Join>): (ks: seq<JoinKey>)
    ensures |ks| == |js| && forall i :: 0 <= i < |js| ==> ks[i] == js[i].key
  {
    if |js| == 0 then [] else [js[0].key] + Keys(js[1..])
  }

  /** The field whose block adds a JOIN under key `k`. */
  function KeyOwner(k: JoinKey): Field
  {
    match k
    case SkuJoin => Sku
    case CfJoin => CustomFields
    case AttrRel | AttrTax | AttrTerms | AttrMeta => Attributes
    case CatRel | CatTax | CatTerms => Categories
    case TagRel | TagTax | TagTerms => Tags
  }

  /** Position of a JOIN key in the order the blocks add them: blocks in
      order, and within a block the order of its statements. */
  function KeyRank(k: JoinKey): nat
  {
    4 * Rank(KeyOwner(k)) +
      match k
      case AttrTax | CatTax | TagTax => 1
      case AttrTerms | CatTerms | TagTerms => 2
      case AttrMeta => 3
      case _ => 0
  }

  /** Keys of an earlier block rank before keys of a later one. */
  lemma KeyRankByOwner(a: JoinKey, b: JoinKey)
    requires Rank(KeyOwner(a)) < Rank(KeyOwner(b))
    ensures KeyRank(a) < KeyRank(b)
  {
  }

  /** Every key belongs to its owner's block. */
  lemma OwnBlock(k: JoinKey)
    ensures k in FieldKeys(KeyOwner(k))
  {
  }

  /** Within one block the keys are distinct and all belong to that field. */
  lemma FieldJoinKeys(f: Field)
    ensures NoDups(FieldKeys(f))
    ensures forall i :: 0 <= i < |FieldKeys(f)| ==> KeyOwner(FieldKeys(f)[i]) == f
    ensures forall i, j :: 0 <= i < j < |FieldKeys(f)| ==> KeyRank(FieldKeys(f)[i]) < KeyRank(FieldKeys(f)[j])
  {
  }

  function CountField(cs: seq<Condition>, f: Field): nat
  {
    if |cs| == 0 then 0 else (if cs[0].field == f then 1 else 0) + CountField(cs[1..], f)
  }

  lemma CountFieldAppend(a: seq<Condition>, b: seq<Condition>, f: Field)
    ensures CountField(a + b, f) == CountField(a, f) + CountField(b, f)
  {
    if |a| > 0 {
      assert (a + b)[1..] == a[1..] + b;
      CountFieldAppend(a[1..], b, f);
    } else {
      assert a + b == b;
    }
  }

  lemma CountFieldOfBlock(cs: seq<Condition>, g: Field, f: Field)
    requires forall i :: 0 <= i < |cs| ==> cs[i].field == g
    ensures CountField(cs, f) == if f == g then |cs| else 0
  {
    if |cs| > 0 {
      CountFieldOfBlock(cs[1..], g, f);
    }
  }

  /** Position of a field in the order the blocks run. */
  function Rank(f: Field): nat
  {
    match f
    case Sku => 0
    case CustomFields => 1
    case Attributes => 2
    case Categories => 3
    case Tags => 4
    case Excerpt => 5
    case Variations => 6
  }

  predicate Ascending(fields: seq<Field>)
  {
    forall i, j :: 0 <= i < j < |fields| ==> Rank(fields[i]) < Rank(fields[j])
  }

  /** What the block of field `f` adds when its switch is on. */
  function FieldBlock(s: Settings, req: Request, t: Tables, f: Field): (b: Clauses)
    ensures Keys(b.joins) == FieldKeys(f)
    ensures forall i :: 0 <= i < |b.joins| ==> b.joins[i].sql == JoinSql(t, b.joins[i].key)
    ensures |b.conditions| == ConditionCount(f) == |FieldColumns(t, f)|
    ensures forall i :: 0 <= i < |b.conditions| ==>
              b.conditions[i].field == f && b.conditions[i].column == FieldColumns(t, f)[i]
  {
    Clauses(FieldJoins(t, f), FieldConditions(t, f, EffectiveExact(s, req, f), req.term, CustomFieldNames(s)))
  }

  /** Each condition of a block carries its field's SQL. */
  lemma FieldBlockWellFormed(s: Settings, req: Request, t: Tables, f: Field)
    ensures forall i :: 0 <= i < |FieldBlock(s, req, t, f).conditions| ==>
              WellFormed(s, req, t, FieldBlock(s, req, t, f).conditions[i])
  {
    var cs := FieldConditions(t, f, EffectiveExact(s, req, f), req.term, CustomFieldNames(s));
    assert FieldBlock(s, req, t, f).conditions == cs;
    forall i | 0 <= i < |cs|
      ensures WellFormed(s, req, t, cs[i])
    {
      ConditionWellFormed(s, req, t, f, i);
    }
  }

  lemma ConditionWellFormed(s: Settings, req: Request, t: Tables, f: Field, i: int)
    requires 0 <= i < |FieldColumns(t, f)|
    ensures WellFormed(s, req, t, FieldConditions(t, f, EffectiveExact(s, req, f), req.term, CustomFieldNames(s))[i])
  {
    var exact := EffectiveExact(s, req, f);
    var names := CustomFieldNames(s);
    var c := FieldConditions(t, f, exact, req.term, names)[i];
    assert c.column == FieldColumns(t, f)[i] && c.column in FieldColumns(t, f);
    var m := MatchSql(c.column, exact, req.term);
    if f == CustomFields {
      assert c.sql == CustomFieldKeyFilter(names) + " AND " + m;
    } else {
      assert c.sql == m;
    }
  }

  /** The blocks of `fields`, run in order; a disabled field adds nothing. */
  function Collect(s: Settings, req: Request, t: Tables, fields: seq<Field>): Clauses
  {
    if |fields| == 0 then Clauses([], [])
    else
      var f := fields[0];
      var rest := Collect(s, req, t, fields[1..]);
      if Enabled(s, f) then
        var b := FieldBlock(s, req, t, f);
        Clauses(b.joins + rest.joins, b.conditions + rest.conditions)
      else rest
  }

  lemma {:induction false} CollectJoinOwners(s: Settings, req: Request, t: Tables, fields: seq<Field>)
    ensures forall i :: 0 <= i < |Collect(s, req, t, fields).joins| ==>
              KeyOwner(Collect(s, req, t, fields).joins[i].key) in fields
              && Enabled(s, KeyOwner(Collect(s, req, t, fields).joins[i].key))
    decreases |fields|
  {
    if |fields| > 0 {
      var f := fields[0];
      var tail := fields[1..];
      CollectJoinOwners(s, req, t, tail);
      var rest := Collect(s, req, t, tail).joins;
      assert forall j :: 0 <= j < |rest| ==> KeyOwner(rest[j].key) in tail && Enabled(s, KeyOwner(rest[j].key));
      assert forall g :: g in tail ==> g in fields;
      if Enabled(s, f) {
        var js := FieldBlock(s, req, t, f).joins;
        FieldJoinKeys(f);
        var all := Collect(s, req, t, fields).joins;
        assert all == js + rest;
        forall i | 0 <= i < |all|
          ensures KeyOwner(all[i].key) in fields && Enabled(s, KeyOwner(all[i].key))
        {
          if i < |js| {
            assert all[i].key == Keys(js)[i] == FieldKeys(f)[i];
          } else {
            assert all[i] == rest[i - |js|];
          }
        }
      } else {
        assert Collect(s, req, t, fields) == Collect(s, req, t, tail);
      }
    }
  }

  lemma KeysAppend(a: seq<Join>, b: seq<Join>)
    ensures Keys(a + b) == Keys(a) + Keys(b)
  {
    assert |Keys(a + b)| == |Keys(a) + Keys(b)|;
    forall i | 0 <= i < |a + b|
      ensures Keys(a + b)[i] == (Keys(a) + Keys(b))[i]
    {
      if i < |a| {
        assert (a + b)[i] == a[i];
      } else {
        assert (a + b)[i] == b[i - |a|];
      }
    }
  }

  /** Prepending one block's JOINs to JOINs of other fields keeps the keys
      distinct. */
  lemma BlockKeysDistinct(f: Field, js: seq<Join>, rest: seq<Join>)
    requires Keys(js) == FieldKeys(f)
    requires NoDups(Keys(rest))
    requires forall j :: 0 <= j < |rest| ==> KeyOwner(rest[j].key) != f
    ensures NoDups(Keys(js + rest))
  {
    FieldJoinKeys(f);
    KeysAppend(js, rest);
    var jk, rk := Keys(js), Keys(rest);
    forall i, j | 0 <= i < |jk| && 0 <= j < |rk|
      ensures jk[i] != rk[j]
    {
      assert KeyOwner(jk[i]) == f;
      assert rk[j] == rest[j].key;
    }
    NoDupsAppend(jk, rk);
  }

  lemma {:induction false} CollectJoinKeysDistinct(s: Settings, req: Request, t: Tables, fields: seq<Field>)
    requires Ascending(fields)
    ensures NoDups(Keys(Collect(s, req, t, fields).joins))
    decreases |fields|
  {
    if |fields| > 0 {
      var f := fields[0];
      var tail := fields[1..];
      assert Ascending(tail);
      CollectJoinKeysDistinct(s, req, t, tail);
      CollectJoinOwners(s, req, t, tail);
      var rest := Collect(s, req, t, tail).joins;
      assert forall j :: 0 <= j < |rest| ==> KeyOwner(rest[j].key) in tail;
      assert f !in tail;
      if Enabled(s, f) {
        BlockKeysDistinct(f, FieldBlock(s, req, t, f).joins, rest);
      } else {
        assert Collect(s, req, t, fields) == Collect(s, req, t, tail);
      }
    }
  }

  /** The SQL of the condition comparing `column` for field `f`: the
      comparison with the term the field's exact-match setting asks for,
      after the meta-key filter for custom fields. */
  function ConditionSql(s: Settings, req: Request, f: Field, column: string): string
  {
    var m := MatchSql(column, EffectiveExact(s, req, f), req.term);
    if f == CustomFields then CustomFieldKeyFilter(CustomFieldNames(s)) + " AND " + m else m
  }

  /** A condition compares one of its field's columns, with that field's
      SQL. */
  predicate WellFormed(s: Settings, req: Request, t: Tables, c: Condition)
  {
    && c.column in FieldColumns(t, c.field)
    && c.sql == ConditionSql(s, req, c.field, c.column)
  }

  lemma {:induction false} CollectConditionFields(s: Settings, req: Request, t: Tables, fields: seq<Field>)
    ensures forall i :: 0 <= i < |Collect(s, req, t, fields).conditions| ==>
              Collect(s, req, t, fields).conditions[i].field in fields
              && Enabled(s, Collect(s, req, t, fields).conditions[i].field)
    decreases |fields|
  {
    if |fields| > 0 {
      var f := fields[0];
      var tail := fields[1..];
      CollectConditionFields(s, req, t, tail);
      var rest := Collect(s, req, t, tail).conditions;
      assert forall j :: 0 <= j < |rest| ==> rest[j].field in tail && Enabled(s, rest[j].field);
      assert forall g :: g in tail ==> g in fields;
      if Enabled(s, f) {
        var cs := FieldBlock(s, req, t, f).conditions;
        var all := Collect(s, req, t, fields).conditions;
        assert all == cs + rest;
        forall i | 0 <= i < |all|
          ensures all[i].field in fields && Enabled(s, all[i].field)
        {
          if i < |cs| {
            assert all[i] == cs[i];
          } else {
            assert all[i] == rest[i - |cs|];
          }
        }
      } else {
        assert Collect(s, req, t, fields) == Collect(s, req, t, tail);
      }
    }
  }

  /** Conditions in non-decreasing order of their field's rank. */
  predicate RankSorted(cs: seq<Condition>)
  {
    forall i, j :: 0 <= i < j < |cs| ==> Rank(cs[i].field) <= Rank(cs[j].field)
  }

  lemma RankSortedAppend(a: seq<Condition>, b: seq<Condition>)
    requires RankSorted(a) && RankSorted(b)
    requires forall i, j :: 0 <= i < |a| && 0 <= j < |b| ==> Rank(a[i].field) <= Rank(b[j].field)
    ensures RankSorted(a + b)
  {
    forall i, j | 0 <= i < j < |a + b|
      ensures Rank((a + b)[i].field) <= Rank((a + b)[j].field)
    {
      if j < |a| {
        assert (a + b)[i] == a[i] && (a + b)[j] == a[j];
      } else if i >= |a| {
        assert (a + b)[i] == b[i - |a|] && (a + b)[j] == b[j - |a|];
      } else {
        assert (a + b)[i] == a[i] && (a + b)[j] == b[j - |a|];
      }
    }
  }

  lemma {:induction false} CollectConditionOrder(s: Settings, req: Request, t: Tables, fields: seq<Field>)
    requires Ascending(fields)
    ensures RankSorted(Collect(s, req, t, fields).conditions)
    decreases |fields|
  {
    if |fields| > 0 {
      var f := fields[0];
      var tail := fields[1..];
      assert Ascending(tail);
      CollectConditionOrder(s, req, t, tail);
      var rest := Collect(s, req, t, tail).conditions;
      if Enabled(s, f) {
        var cs := FieldBlock(s, req, t, f).conditions;
        assert forall j :: 0 <= j < |rest| ==> Rank(f) < Rank(rest[j].field) by {
          CollectConditionFields(s, req, t, tail);
          assert forall g :: g in tail ==> Rank(f) < Rank(g);
        }
        assert forall i :: 0 <= i < |cs| ==> cs[i].field == f;
        RankSortedAppend(cs, rest);
        assert Collect(s, req, t, fields).conditions == cs + rest;
      } else {
        assert Collect(s, req, t, fields) == Collect(s, req, t, tail);
      }
    }
  }


  lemma {:induction false} CollectConditionSql(s: Settings, req: Request, t: Tables, fields: seq<Field>)
    ensures forall i :: 0 <= i < |Collect(s, req, t, fields).conditions| ==>
              WellFormed(s, req, t, Collect(s, req, t, fields).conditions[i])
    decreases |fields|
  {
    if |fields| > 0 {
      var f := fields[0];
      var tail := fields[1..];
      CollectConditionSql(s, req, t, tail);
      var rest := Collect(s, req, t, tail).conditions;
      assert forall j :: 0 <= j < |rest| ==> WellFormed(s, req, t, rest[j]);
      if Enabled(s, f) {
        var cs := FieldBlock(s, req, t, f).conditions;
        FieldBlockWellFormed(s, req, t, f);
        var all := Collect(s, req, t, fields).conditions;
        assert all == cs + rest;
        forall i | 0 <= i < |all|
          ensures WellFormed(s, req, t, all[i])
        {
          if i < |cs| {
            assert all[i] == cs[i];
          } else {
            assert all[i] == rest[i - |cs|];
          }
        }
      } else {
        assert Collect(s, req, t, fields) == Collect(s, req, t, tail);
      }
    }
  }

  lemma {:induction false} CollectCounts(s: Settings, req: Request, t: Tables, fields: seq<Field>, g: Field)
    requires Ascending(fields)
    ensures CountField(Collect(s, req, t, fields).conditions, g) ==
              if g in fields && Enabled(s, g) then ConditionCount(g) else 0
    decreases |fields|
  {
    if |fields| > 0 {
      var f := fields[0];
      var tail := fields[1..];
      assert Ascending(tail);
      CollectCounts(s, req, t, tail, g);
      assert f !in tail;
      if Enabled(s, f) {
        var cs := FieldBlock(s, req, t, f).conditions;
        CountFieldAppend(cs, Collect(s, req, t, tail).conditions, g);
        CountFieldOfBlock(cs, f, g);
      }
    }
  }

  lemma {:induction false} CollectJoinSql(s: Settings, req: Request, t: Tables, fields: seq<Field>)
    ensures forall i :: 0 <= i < |Collect(s, req, t, fields).joins| ==>
              Collect(s, req, t, fields).joins[i].sql == JoinSql(t, Collect(s, req, t, fields).joins[i].key)
    decreases |fields|
  {
    if |fields| > 0 {
      var f := fields[0];
      var tail := fields[1..];
      CollectJoinSql(s, req, t, tail);
      var rest := Collect(s, req, t, tail).joins;
      if Enabled(s, f) {
        var js := FieldBlock(s, req, t, f).joins;
        var all := Collect(s, req, t, fields).joins;
        assert all == js + rest;
        forall i | 0 <= i < |all|
          ensures all[i].sql == JoinSql(t, all[i].key)
        {
          if i < |js| {
            assert all[i] == js[i];
          } else {
            assert all[i] == rest[i - |js|];
          }
        }
      } else {
        assert Collect(s, req, t, fields) == Collect(s, req, t, tail);
      }
    }
  }

  /** Every key of an enabled field among `fields` is joined. */
  lemma {:induction false} CollectJoinsComplete(s: Settings, req: Request, t: Tables, fields: seq<Field>, k: JoinKey)
    requires KeyOwner(k) in fields && Enabled(s, KeyOwner(k))
    ensures k in Keys(Collect(s, req, t, fields).joins)
    decreases |fields|
  {
    var f := fields[0];
    var tail := fields[1..];
    var rest := Collect(s, req, t, tail).joins;
    if Enabled(s, f) {
      var js := FieldBlock(s, req, t, f).joins;
      KeysAppend(js, rest);
      assert Collect(s, req, t, fields).joins == js + rest;
      if f == KeyOwner(k) {
        OwnBlock(k);
      } else {
        CollectJoinsComplete(s, req, t, tail, k);
      }
    } else {
      assert f != KeyOwner(k);
      CollectJoinsComplete(s, req, t, tail, k);
    }
  }

  /** JOINs in strictly increasing key rank. */
  predicate KeyRankSorted(js: seq<Join>)
  {
    forall i, j :: 0 <= i < j < |js| ==> KeyRank(js[i].key) < KeyRank(js[j].key)
  }

  lemma KeyRankSortedAppend(a: seq<Join>, b: seq<Join>)
    requires KeyRankSorted(a) && KeyRankSorted(b)
    requires forall i, j :: 0 <= i < |a| && 0 <= j < |b| ==> KeyRank(a[i].key) < KeyRank(b[j].key)
    ensures KeyRankSorted(a + b)
  {
    forall i, j | 0 <= i < j < |a + b|
      ensures KeyRank((a + b)[i].key) < KeyRank((a + b)[j].key)
    {
      if j < |a| {
        assert (a + b)[i] == a[i] && (a + b)[j] == a[j];
      } else if i >= |a| {
        assert (a + b)[i] == b[i - |a|] && (a + b)[j] == b[j - |a|];
      } else {
        assert (a + b)[i] == a[i] && (a + b)[j] == b[j - |a|];
      }
    }
  }

  lemma {:induction false} CollectJoinOrder(s: Settings, req: Request, t: Tables, fields: seq<Field>)
    requires Ascending(fields)
    ensures KeyRankSorted(Collect(s, req, t, fields).joins)
    decreases |fields|
  {
    if |fields| > 0 {
      var f := fields[0];
      var tail := fields[1..];
      assert Ascending(tail);
      CollectJoinOrder(s, req, t, tail);
      var rest := Collect(s, req, t, tail).joins;
      if Enabled(s, f) {
        var js := FieldBlock(s, req, t, f).joins;
        BlockJoinsSorted(s, req, t, f);
        assert forall j :: 0 <= j < |rest| ==> Rank(f) < Rank(KeyOwner(rest[j].key)) by {
          CollectJoinOwners(s, req, t, tail);
          assert forall g :: g in tail ==> Rank(f) < Rank(g);
        }
        forall i, j | 0 <= i < |js| && 0 <= j < |rest|
          ensures KeyRank(js[i].key) < KeyRank(rest[j].key)
        {
          KeyRankByOwner(js[i].key, rest[j].key);
        }
        KeyRankSortedAppend(js, rest);
        assert Collect(s, req, t, fields).joins == js + rest;
      } else {
        assert Collect(s, req, t, fields) == Collect(s, req, t, tail);
      }
    }
  }

  /** A block's JOINs are in key-rank order and all belong to its field. */
  lemma BlockJoinsSorted(s: Settings, req: Request, t: Tables, f: Field)
    ensures KeyRankSorted(FieldBlock(s, req, t, f).joins)
    ensures forall i :: 0 <= i < |FieldBlock(s, req, t, f).joins| ==> KeyOwner(FieldBlock(s, req, t, f).joins[i].key) == f
  {
    var js := FieldBlock(s, req, t, f).joins;
    FieldJoinKeys(f);
    assert forall i :: 0 <= i < |js| ==> js[i].key == FieldKeys(f)[i];
  }

  /** The columns the conditions of field `f` compare, in order. */
  function ColumnsOf(cs: seq<Condition>, f: Field): seq<string>
  {
    if |cs| == 0 then [] else (if cs[0].field == f then [cs[0].column] else []) + ColumnsOf(cs[1..], f)
  }

  lemma {:induction false} ColumnsOfAppend(a: seq<Condition>, b: seq<Condition>, f: Field)
    ensures ColumnsOf(a + b, f) == ColumnsOf(a, f) + ColumnsOf(b, f)
    decreases |a|
  {
    if |a| > 0 {
      assert (a + b)[1..] == a[1..] + b;
      ColumnsOfAppend(a[1..], b, f);
    } else {
      assert a + b == b;
    }
  }

  /** A block compares exactly its field's columns, in order. */
  lemma {:induction false} ColumnsOfBlock(cs: seq<Condition>, cols: seq<string>, g: Field, f: Field)
    requires |cs| == |cols| && forall i :: 0 <= i < |cs| ==> cs[i].field == g && cs[i].column == cols[i]
    ensures ColumnsOf(cs, f) == if f == g then cols else []
    decreases |cs|
  {
    if |cs| > 0 {
      ColumnsOfBlock(cs[1..], cols[1..], g, f);
      assert cols == [cols[0]] + cols[1..];
    }
  }

  lemma {:induction false} CollectColumns(s: Settings, req: Request, t: Tables, fields: seq<Field>, g: Field)
    requires Ascending(fields)
    ensures ColumnsOf(Collect(s, req, t, fields).conditions, g) ==
              if g in fields && Enabled(s, g) then FieldColumns(t, g) else []
    decreases |fields|
  {
    if |fields| > 0 {
      var f := fields[0];
      var tail := fields[1..];
      assert Ascending(tail);
      CollectColumns(s, req, t, tail, g);
      assert f !in tail;
      if Enabled(s, f) {
        var cs := FieldBlock(s, req, t, f).conditions;
        ColumnsOfAppend(cs, Collect(s, req, t, tail).conditions, g);
        ColumnsOfBlock(cs, FieldColumns(t, f), f, g);
      }
    }
  }

  /** The clauses `modify_search_query` builds for one request: the keyed
      JOIN list and the condition list. The JOINs are exactly those of the
      enabled fields, in the order the blocks add them, each with its SQL;
      every column of every enabled field is compared, each condition
      carrying its field's SQL, in block order; and every compared column is
      qualified by a JOINed alias or the posts table. */
  function BuildClauses(s: Settings, req: Request, t: Tables): (c: Clauses)
    ensures NoDups(Keys(c.joins))
    ensures forall k :: k in Keys(c.joins) <==> Enabled(s, KeyOwner(k))
    ensures forall i, j :: 0 <= i < j < |c.joins| ==> KeyRank(c.joins[i].key) < KeyRank(c.joins[j].key)
    ensures forall i :: 0 <= i < |c.joins| ==> c.joins[i].sql == JoinSql(t, c.joins[i].key)
    ensures forall f :: CountField(c.conditions, f) ==
              if Enabled(s, f) && f != Variations then ConditionCount(f) else 0
    ensures forall i :: 0 <= i < |c.conditions| ==>
              Enabled(s, c.conditions[i].field) && c.conditions[i].field != Variations
              && c.conditions[i].column in FieldColumns(t, c.conditions[i].field)
    ensures forall f :: ColumnsOf(c.conditions, f) ==
              if Enabled(s, f) && f != Variations then FieldColumns(t, f) else []
    ensures forall i, j :: 0 <= i < j < |c.conditions| ==>
              Rank(c.conditions[i].field) <= Rank(c.conditions[j].field)
    ensures forall i :: 0 <= i < |c.conditions| ==>
              EndsWith(c.conditions[i].sql,
                       MatchSql(c.conditions[i].column, EffectiveExact(s, req, c.conditions[i].field), req.term))
    ensures forall i :: 0 <= i < |c.conditions| && c.conditions[i].field != CustomFields ==>
              c.conditions[i].sql ==
                MatchSql(c.conditions[i].column, EffectiveExact(s, req, c.conditions[i].field), req.term)
    ensures forall i :: 0 <= i < |c.conditions| && c.conditions[i].field == CustomFields ==>
              c.conditions[i].sql == CustomFieldKeyFilter(CustomFieldNames(s)) + " AND "
                + MatchSql(c.conditions[i].column, EffectiveExact(s, req, CustomFields), req.term)
    ensures forall i :: 0 <= i < |c.conditions| ==> ColumnScoped(t, c.joins, c.conditions[i].column)
  {
    var c := Collect(s, req, t, QueryOrder);
    BuiltJoins(s, req, t, c);
    BuiltConditions(s, req, t, c);
    BuiltConditionSql(s, req, t, c);
    c
  }

  /** The JOIN half of `BuildClauses`. */
  lemma BuiltJoins(s: Settings, req: Request, t: Tables, c: Clauses)
    requires c == Collect(s, req, t, QueryOrder)
    ensures && NoDups(Keys(c.joins))
      && (forall k :: k in Keys(c.joins) <==> Enabled(s, KeyOwner(k)))
      && (forall i, j :: 0 <= i < j < |c.joins| ==> KeyRank(c.joins[i].key) < KeyRank(c.joins[j].key))
      && (forall i :: 0 <= i < |c.joins| ==> c.joins[i].sql == JoinSql(t, c.joins[i].key))
  {
    QueryOrderFields();
    CollectJoinKeysDistinct(s, req, t, QueryOrder);
    CollectJoinOrder(s, req, t, QueryOrder);
    CollectJoinSql(s, req, t, QueryOrder);
    BuiltJoinKeys(s, req, t);
  }

  /** The condition half of `BuildClauses`. */
  lemma BuiltConditions(s: Settings, req: Request, t: Tables, c: Clauses)
    requires c == Collect(s, req, t, QueryOrder)
    ensures forall f :: CountField(c.conditions, f) ==
              if Enabled(s, f) && f != Variations then ConditionCount(f) else 0
    ensures forall f :: ColumnsOf(c.conditions, f) ==
              if Enabled(s, f) && f != Variations then FieldColumns(t, f) else []
    ensures forall i, j :: 0 <= i < j < |c.conditions| ==>
              Rank(c.conditions[i].field) <= Rank(c.conditions[j].field)
  {
    QueryOrderFields();
    CollectConditionOrder(s, req, t, QueryOrder);
    forall f
      ensures CountField(c.conditions, f) == if f in QueryOrder && Enabled(s, f) then ConditionCount(f) else 0
    {
      CollectCounts(s, req, t, QueryOrder, f);
    }
    forall f
      ensures ColumnsOf(c.conditions, f) == if f in QueryOrder && Enabled(s, f) then FieldColumns(t, f) else []
    {
      CollectColumns(s, req, t, QueryOrder, f);
    }
  }

  lemma BuiltConditionSql(s: Settings, req: Request, t: Tables, c: Clauses)
    requires c == Collect(s, req, t, QueryOrder)
    ensures forall i :: 0 <= i < |c.conditions| ==>
              Enabled(s, c.conditions[i].field) && c.conditions[i].field != Variations
              && c.conditions[i].column in FieldColumns(t, c.conditions[i].field)
    ensures forall i :: 0 <= i < |c.conditions| && c.conditions[i].field != CustomFields ==>
              c.conditions[i].sql ==
                MatchSql(c.conditions[i].column, EffectiveExact(s, req, c.conditions[i].field), req.term)
    ensures forall i :: 0 <= i < |c.conditions| && c.conditions[i].field == CustomFields ==>
              c.conditions[i].sql == CustomFieldKeyFilter(CustomFieldNames(s)) + " AND "
                + MatchSql(c.conditions[i].column, EffectiveExact(s, req, CustomFields), req.term)
    ensures forall i :: 0 <= i < |c.conditions| ==>
              EndsWith(c.conditions[i].sql,
                       MatchSql(c.conditions[i].column, EffectiveExact(s, req, c.conditions[i].field), req.term))
              && ColumnScoped(t, c.joins, c.conditions[i].column)
  {
    QueryOrderFields();
    CollectConditionFields(s, req, t, QueryOrder);
    CollectConditionSql(s, req, t, QueryOrder);
    BuiltJoinKeys(s, req, t);
    forall i | 0 <= i < |c.conditions|
      ensures EndsWith(c.conditions[i].sql,
                       MatchSql(c.conditions[i].column, EffectiveExact(s, req, c.conditions[i].field), req.term))
      ensures ColumnScoped(t, c.joins, c.conditions[i].column)
    {
      ConditionShape(s, req, t, c.conditions[i]);
      ConditionScoped(s, req, t, c, c.conditions[i]);
    }
  }

  lemma BuiltJoinKeys(s: Settings, req: Request, t: Tables)
    requires forall f :: f in QueryOrder <==> f != Variations
    ensures forall k :: k in Keys(Collect(s, req, t, QueryOrder).joins) <==> Enabled(s, KeyOwner(k))
  {
    forall k
      ensures k in Keys(Collect(s, req, t, QueryOrder).joins) <==> Enabled(s, KeyOwner(k))
    {
      if Enabled(s, KeyOwner(k)) {
        CollectJoinsComplete(s, req, t, QueryOrder, k);
      }
      if k in Keys(Collect(s, req, t, QueryOrder).joins) {
        CollectJoinOwners(s, req, t, QueryOrder);
      }
    }
  }

  /** A well-formed condition ends with its comparison. */
  lemma ConditionShape(s: Settings, req: Request, t: Tables, c: Condition)
    requires WellFormed(s, req, t, c)
    ensures EndsWith(c.sql, MatchSql(c.column, EffectiveExact(s, req, c.field), req.term))
  {
    var m := MatchSql(c.column, EffectiveExact(s, req, c.field), req.term);
    assert c.sql[|c.sql| - |m|..] == m;
  }

  /** A condition of an enabled field compares a column the JOINs of
      `c` qualify. */
  lemma ConditionScoped(s: Settings, req: Request, t: Tables, c: Clauses, x: Condition)
    requires WellFormed(s, req, t, x) && Enabled(s, x.field)
    requires forall k :: Enabled(s, KeyOwner(k)) ==> k in Keys(c.joins)
    ensures ColumnScoped(t, c.joins, x.column)
  {
    var i :| 0 <= i < |FieldColumns(t, x.field)| && FieldColumns(t, x.field)[i] == x.column;
    var k := ColumnQualified(t, x.field, i);
    if x.field != Excerpt {
      FieldJoinKeys(x.field);
      var n :| 0 <= n < |FieldKeys(x.field)| && FieldKeys(x.field)[n] == k;
      assert KeyOwner(k) == x.field;
      assert k in Keys(c.joins);
      var j :| 0 <= j < |c.joins| && Keys(c.joins)[j] == k;
      assert c.joins[j].key == k;
    }
  }

  lemma QueryOrderFields()
    ensures Ascending(QueryOrder)
    ensures forall f :: f in QueryOrder <==> f != Variations
  {
    forall f
      ensures f in QueryOrder <==> f != Variations
    {
      if f != Variations {
        assert f == QueryOrder[Rank(f)];
      }
    }
  }

  /** The SQL texts of `js`, in order. */
  function JoinTexts(js: seq<Join>): (r: seq<string>)
    ensures |r| == |js| && forall i :: 0 <= i < |js| ==> r[i] == js[i].sql
  {
    seq(|js|, i requires 0 <= i < |js| => js[i].sql)
  }

  /** `$clauses['join'] .= ' ' . implode(' ', $joins)` when there are JOINs:
      the host's JOIN text is kept as it was, and every JOIN follows it,
      space-separated in list order. */
  function JoinClause(join: string, js: seq<Join>): (r: string)
    ensures |js| == 0 ==> r == join
    ensures |js| > 0 ==> StartsWith(r, join + " ") && r[|join| + 1..] == Implode(" ", JoinTexts(js))
    ensures forall i :: 0 <= i < |js| ==> Contains(r[|join| + 1..], js[i].sql)
  {
    if |js| == 0 then join
    else
      var tail := Implode(" ", JoinTexts(js));
      var r := join + " " + tail;
      assert r == (join + " ") + tail;
      assert r[|join| + 1..] == tail;
      assert forall i :: 0 <= i < |js| ==> Contains(tail, js[i].sql) by {
        forall i | 0 <= i < |js|
          ensures Contains(tail, js[i].sql)
        {
          ImplodeContainsPart(" ", JoinTexts(js), i);
        }
      }
      r
  }

  /** After the filter, the JOIN clause holds the JOIN text of every key an
      enabled field needs, after the host's own JOINs. */
  lemma BuiltJoinsAppended(s: Settings, req: Request, t: Tables, join: string, k: JoinKey)
    requires Enabled(s, KeyOwner(k))
    ensures var r := JoinClause(join, BuildClauses(s, req, t).joins);
      StartsWith(r, join + " ") && Contains(r[|join| + 1..], JoinSql(t, k))
  {
    JoinClauseHasKey(t, join, BuildClauses(s, req, t).joins, k);
  }

  /** A JOIN list whose texts are those of their keys puts the text of each
      of its keys into the JOIN clause. */
  lemma JoinClauseHasKey(t: Tables, join: string, js: seq<Join>, k: JoinKey)
    requires k in Keys(js)
    requires forall i :: 0 <= i < |js| ==> js[i].sql == JoinSql(t, js[i].key)
    ensures var r := JoinClause(join, js);
      StartsWith(r, join + " ") && Contains(r[|join| + 1..], JoinSql(t, k))
  {
    var j :| 0 <= j < |js| && Keys(js)[j] == k;
    assert js[j].sql == JoinSql(t, k);
  }
}
