/** `handle_variation_search`: when variation search is on, the product
    variations whose SKU, attribute values or custom fields match the term
    are looked up, and their parent products are added to the query's
    `post__in` list. */
module Variations {
  import opened Php
  import opened MySql
  import opened Settings
  import opened ClauseBuilder

  /** `'compare' => '='` or `'compare' => 'LIKE'`. */
  datatype Compare = Equal | LikeCompare

  /** How a clause tests the meta key:
      - `KeyEquals`: the row's key is the clause key. `WP_Meta_Query` does
        this when the clause has no `compare_key` entry.
      - `KeyNotLike`: `'compare_key' => 'NOT LIKE'`. The post has no meta row
        at all whose key contains the clause key.
      - `KeyNotHidden`: the row's key does not start with `_`. This is the
        main query's hidden-key test, `meta_key NOT LIKE '\_%'`, applied to
        the same row. */
  datatype KeyCompare = KeyEquals | KeyNotLike | KeyNotHidden

  /** One clause of the meta query. */
  datatype MetaClause = MetaClause(key: string, keyCompare: KeyCompare, value: string, compare: Compare)

  /** One `postmeta` row of a variation. */
  datatype MetaRow = MetaRow(key: string, value: string)

  /** The value test as `WP_Meta_Query` renders it: `=` compares whole
      values, and `LIKE` wraps the LIKE-escaped operand in `%`. */
  predicate ValueMatches(c: MetaClause, v: string)
  {
    if c.compare == Equal then v == c.value else Like(LikePattern(c.value), v)
  }

  /** What a clause asks of a variation's meta rows. */
  predicate ClauseMatches(c: MetaClause, rows: seq<MetaRow>)
  {
    match c.keyCompare
    case KeyEquals =>
      exists i :: 0 <= i < |rows| && rows[i].key == c.key && ValueMatches(c, rows[i].value)
    case KeyNotLike =>
      && (exists i :: 0 <= i < |rows| && ValueMatches(c, rows[i].value))
      && (forall i :: 0 <= i < |rows| ==> !Like(LikePattern(c.key), rows[i].key))
    case KeyNotHidden =>
      exists i :: 0 <= i < |rows| && !StartsWith(rows[i].key, "_") && ValueMatches(c, rows[i].value)
  }

  /** The clauses are joined with `'relation' => 'OR'`. */
  predicate MetaQueryMatches(q: seq<MetaClause>, rows: seq<MetaRow>)
  {
    exists i :: 0 <= i < |q| && ClauseMatches(q[i], rows)
  }

  /** The value test in plain terms: the value is the term (exact), or
      contains it (LIKE). */
  predicate ValueHolds(term: string, exact: bool, v: string)
  {
    if exact then v == term else Contains(v, term)
  }

  lemma ValueMatchesMeaning(c: MetaClause, v: string)
    ensures ValueMatches(c, v) <==> ValueHolds(c.value, c.compare == Equal, v)
  {
    LikePatternIsSubstring(c.value, v);
  }

  /** A clause matches in plain terms: the LIKE patterns become substring
      tests. */
  lemma ClauseMeaning(c: MetaClause, rows: seq<MetaRow>)
    ensures ClauseMatches(c, rows) <==>
              match c.keyCompare
              case KeyEquals =>
                exists i :: 0 <= i < |rows| && rows[i].key == c.key && ValueHolds(c.value, c.compare == Equal, rows[i].value)
              case KeyNotLike =>
                && (exists i :: 0 <= i < |rows| && ValueHolds(c.value, c.compare == Equal, rows[i].value))
                && (forall i :: 0 <= i < |rows| ==> !Contains(rows[i].key, c.key))
              case KeyNotHidden =>
                exists i :: 0 <= i < |rows| && !StartsWith(rows[i].key, "_")
                  && ValueHolds(c.value, c.compare == Equal, rows[i].value)
  {
    forall i | 0 <= i < |rows|
      ensures ValueMatches(c, rows[i].value) <==> ValueHolds(c.value, c.compare == Equal, rows[i].value)
      ensures Like(LikePattern(c.key), rows[i].key) <==> Contains(rows[i].key, c.key)
    {
      ValueMatchesMeaning(c, rows[i].value);
      LikePatternIsSubstring(c.key, rows[i].key);
    }
  }

  const SkuMetaKey := "_sku"
  const AttributeKeyPrefix := "attribute_pa_"

  /** The fallback clause as `WP_Meta_Query` reads it. The source spells the
      key operator `key_compare`; `WP_Meta_Query` only knows `compare_key`,
      so the entry is ignored and the key is compared with `=`. */
  function FallbackClause(term: string, cmp: Compare): MetaClause
  {
    MetaClause("_", KeyEquals, term, cmp)
  }

  /** The fallback with the operator spelt `compare_key`. */
  function CompareKeyFallbackClause(term: string, cmp: Compare): MetaClause
  {
    MetaClause("_", KeyNotLike, term, cmp)
  }

  /** The fallback the comment at the branch describes: any meta row that is
      not internal. */
  function IntendedFallbackClause(term: string, cmp: Compare): MetaClause
  {
    MetaClause("_", KeyNotHidden, term, cmp)
  }

  /** As written, the fallback only finds a meta row whose key is exactly
      `_`. */
  lemma FallbackMatchesUnderscoreKeyOnly(term: string, cmp: Compare, rows: seq<MetaRow>)
    ensures ClauseMatches(FallbackClause(term, cmp), rows) <==>
              exists i :: 0 <= i < |rows| && rows[i].key == "_" && ValueHolds(term, cmp == Equal, rows[i].value)
  {
    ClauseMeaning(FallbackClause(term, cmp), rows);
  }

  /** The corrected fallback finds exactly the rows the main query's
      custom-field key filter admits when no field is listed, with a
      matching value. */
  lemma IntendedFallbackMeaning(term: string, cmp: Compare, rows: seq<MetaRow>)
    ensures ClauseMatches(IntendedFallbackClause(term, cmp), rows) <==>
              exists i :: 0 <= i < |rows| && KeyFilterAdmits([], rows[i].key)
                && ValueHolds(term, cmp == Equal, rows[i].value)
  {
    ClauseMeaning(IntendedFallbackClause(term, cmp), rows);
    forall i | 0 <= i < |rows|
      ensures KeyFilterAdmits([], rows[i].key) <==> !StartsWith(rows[i].key, "_")
    {
      CustomFieldKeyFilterMeaning([], rows[i].key);
    }
  }

  /** The term matches itself in either mode. */
  lemma TermMatchesItself(c: MetaClause)
    ensures ValueMatches(c, c.value)
  {
    ContainsSelf(c.value);
    LikePatternIsSubstring(c.value, c.value);
  }

  /** The corrected fallback finds any visible row holding the term. */
  lemma IntendedFallbackFindsRow(term: string, cmp: Compare, rows: seq<MetaRow>, i: int)
    requires 0 <= i < |rows| && rows[i].value == term && !StartsWith(rows[i].key, "_")
    ensures ClauseMatches(IntendedFallbackClause(term, cmp), rows)
  {
    TermMatchesItself(IntendedFallbackClause(term, cmp));
  }

  /** A variation whose only meta row is a visible custom field holding the
      term: the fallback as written misses it, the corrected one finds it. */
  lemma FallbackMissesCustomMeta(term: string, cmp: Compare)
    ensures var rows := [MetaRow("color", term)];
      && !ClauseMatches(FallbackClause(term, cmp), rows)
      && ClauseMatches(IntendedFallbackClause(term, cmp), rows)
  {
    var rows := [MetaRow("color", term)];
    assert rows[0].key != "_" && rows[0].key[0] != '_';
    IntendedFallbackFindsRow(term, cmp, rows, 0);
  }

  /** With the operator spelt `compare_key` the fallback still misses it as
      soon as the variation also has a key containing `_`, such as `_sku`:
      the key test is `NOT EXISTS` over all of the post's rows. */
  lemma CompareKeyFallbackMisses(term: string, cmp: Compare)
    ensures var rows := [MetaRow("color", term), MetaRow(SkuMetaKey, "")];
      && !ClauseMatches(CompareKeyFallbackClause(term, cmp), rows)
      && ClauseMatches(IntendedFallbackClause(term, cmp), rows)
  {
    var rows := [MetaRow("color", term), MetaRow(SkuMetaKey, "")];
    assert Like(LikePattern("_"), rows[1].key) by {
      assert StartsWith(SkuMetaKey, "_");
      LikePatternIsSubstring("_", SkuMetaKey);
    }
    assert rows[0].key[0] != '_';
    IntendedFallbackFindsRow(term, cmp, rows, 0);
  }

  /** The meta query, clause by clause: the SKU, one clause per product
      attribute taxonomy, then one per listed custom field or, when none is
      listed, the fallback clause. */
  function VariationMetaQuery(term: string, exact: bool, attributes: seq<string>, sanitizeTitle: string -> string, fields: seq<string>): (q: seq<MetaClause>)
    ensures |q| == 1 + |attributes| + (if |fields| > 0 then |fields| else 1)
    ensures forall i :: 0 <= i < |q| ==> q[i].value == term && (q[i].compare == Equal <==> exact)
    ensures q[0] == MetaClause(SkuMetaKey, KeyEquals, term, q[0].compare)
    ensures forall i :: 0 <= i < |attributes| ==>
              q[1 + i] == MetaClause(AttributeKeyPrefix + sanitizeTitle(attributes[i]), KeyEquals, term, q[0].compare)
    ensures forall i :: 0 <= i < |fields| ==>
              q[1 + |attributes| + i] == MetaClause(fields[i], KeyEquals, term, q[0].compare)
    ensures |fields| == 0 ==> q[1 + |attributes|] == FallbackClause(term, q[0].compare)
  {
    var cmp := if exact then Equal else LikeCompare;
    var sku := [MetaClause(SkuMetaKey, KeyEquals, term, cmp)];
    var attrs := seq(|attributes|, i requires 0 <= i < |attributes| =>
      MetaClause(AttributeKeyPrefix + sanitizeTitle(attributes[i]), KeyEquals, term, cmp));
    var custom := if |fields| > 0 then seq(|fields|, i requires 0 <= i < |fields| => MetaClause(fields[i], KeyEquals, term, cmp))
                   else [FallbackClause(term, cmp)];
    sku + attrs + custom
  }

  /** The meta keys the query asks about. */
  predicate QueriedKey(k: string, attributes: seq<string>, sanitizeTitle: string -> string, fields: seq<string>)
  {
    || k == SkuMetaKey
    || (exists j :: 0 <= j < |attributes| && k == AttributeKeyPrefix + sanitizeTitle(attributes[j]))
    || (if |fields| > 0 then k in fields else k == "_")
  }

  /** A variation is found exactly when one of its meta rows has a queried
      key and a value that is the term (exact) or contains it (LIKE). */
  lemma VariationQueryMeaning(term: string, exact: bool, attributes: seq<string>, sanitizeTitle: string -> string,
                              fields: seq<string>, rows: seq<MetaRow>)
    ensures MetaQueryMatches(VariationMetaQuery(term, exact, attributes, sanitizeTitle, fields), rows) <==>
              exists i :: 0 <= i < |rows| && QueriedKey(rows[i].key, attributes, sanitizeTitle, fields)
                && ValueHolds(term, exact, rows[i].value)
  {
    var q := VariationMetaQuery(term, exact, attributes, sanitizeTitle, fields);
    if exists i :: 0 <= i < |rows| && QueriedKey(rows[i].key, attributes, sanitizeTitle, fields)
                 && ValueHolds(term, exact, rows[i].value) {
      var i :| 0 <= i < |rows| && QueriedKey(rows[i].key, attributes, sanitizeTitle, fields)
               && ValueHolds(term, exact, rows[i].value);
      QueriedRowMatches(term, exact, attributes, sanitizeTitle, fields, rows, i);
    }
    if MetaQueryMatches(q, rows) {
      var j :| 0 <= j < |q| && ClauseMatches(q[j], rows);
      MatchedClauseQueried(term, exact, attributes, sanitizeTitle, fields, rows, j);
    }
  }

  /** A row with a queried key and a value the term holds in makes the
      query match. */
  lemma QueriedRowMatches(term: string, exact: bool, attributes: seq<string>, sanitizeTitle: string -> string,
                          fields: seq<string>, rows: seq<MetaRow>, i: int)
    requires 0 <= i < |rows| && QueriedKey(rows[i].key, attributes, sanitizeTitle, fields)
    requires ValueHolds(term, exact, rows[i].value)
    ensures MetaQueryMatches(VariationMetaQuery(term, exact, attributes, sanitizeTitle, fields), rows)
  {
    var q := VariationMetaQuery(term, exact, attributes, sanitizeTitle, fields);
    var j := QueriedClause(term, exact, attributes, sanitizeTitle, fields, rows[i].key);
    assert q[j].keyCompare == KeyEquals && q[j].value == term && (q[j].compare == Equal <==> exact);
    ClauseMeaning(q[j], rows);
    assert ClauseMatches(q[j], rows);
  }

  /** A clause of the query that matches has found a row with a queried
      key and a value the term holds in. */
  lemma MatchedClauseQueried(term: string, exact: bool, attributes: seq<string>, sanitizeTitle: string -> string,
                             fields: seq<string>, rows: seq<MetaRow>, j: int)
    requires var q := VariationMetaQuery(term, exact, attributes, sanitizeTitle, fields);
      0 <= j < |q| && ClauseMatches(q[j], rows)
    ensures exists i :: 0 <= i < |rows| && QueriedKey(rows[i].key, attributes, sanitizeTitle, fields)
              && ValueHolds(term, exact, rows[i].value)
  {
    var q := VariationMetaQuery(term, exact, attributes, sanitizeTitle, fields);
    assert q[j].keyCompare == KeyEquals && q[j].value == term && (q[j].compare == Equal <==> exact);
    ClauseMeaning(q[j], rows);
    var i :| 0 <= i < |rows| && rows[i].key == q[j].key && ValueHolds(term, exact, rows[i].value);
    if j == 0 {
    } else if j < 1 + |attributes| {
      assert rows[i].key == AttributeKeyPrefix + sanitizeTitle(attributes[j - 1]);
    } else if |fields| > 0 {
      assert rows[i].key == fields[j - 1 - |attributes|];
    }
    assert QueriedKey(rows[i].key, attributes, sanitizeTitle, fields);
  }

  /** The clause that asks about a queried key. */
  lemma QueriedClause(term: string, exact: bool, attributes: seq<string>, sanitizeTitle: string -> string,
                      fields: seq<string>, k: string) returns (j: int)
    requires QueriedKey(k, attributes, sanitizeTitle, fields)
    ensures var q := VariationMetaQuery(term, exact, attributes, sanitizeTitle, fields);
      0 <= j < |q| && q[j].key == k
  {
    var q := VariationMetaQuery(term, exact, attributes, sanitizeTitle, fields);
    if k == SkuMetaKey {
      j := 0;
    } else if |fields| > 0 && k in fields {
      var f :| 0 <= f < |fields| && fields[f] == k;
      j := 1 + |attributes| + f;
      assert q[1 + |attributes| + f].key == fields[f];
    } else if |fields| == 0 && k == "_" {
      j := 1 + |attributes|;
      assert q[j] == FallbackClause(term, q[0].compare);
    } else {
      assert exists a :: 0 <= a < |attributes| && k == AttributeKeyPrefix + sanitizeTitle(attributes[a]);
      var a :| 0 <= a < |attributes| && k == AttributeKeyPrefix + sanitizeTitle(attributes[a]);
      j := 1 + a;
      assert q[1 + a].key == AttributeKeyPrefix + sanitizeTitle(attributes[a]);
    }
  }

  /** `wp_get_post_parent_id` for each found variation, keeping the non-zero
      answers in order (a missing post answers `false`, modelled as 0). */
  function ParentIds(variationIds: seq<int>, parentOf: int -> int): (r: seq<int>)
    ensures forall i :: 0 <= i < |r| ==> r[i] != 0
    ensures forall i :: 0 <= i < |variationIds| && parentOf(variationIds[i]) != 0 ==> parentOf(variationIds[i]) in r
    ensures forall x :: x in r ==> exists i :: 0 <= i < |variationIds| && parentOf(variationIds[i]) == x
    ensures |r| <= |variationIds|
    decreases |variationIds|
  {
    if |variationIds| == 0 then []
    else
      var p := parentOf(variationIds[0]);
      var rest := ParentIds(variationIds[1..], parentOf);
      assert forall x :: x in rest ==> exists i :: 0 <= i < |variationIds| && parentOf(variationIds[i]) == x by {
        forall x | x in rest
          ensures exists i :: 0 <= i < |variationIds| && parentOf(variationIds[i]) == x
        {
          var i :| 0 <= i < |variationIds[1..]| && parentOf(variationIds[1..][i]) == x;
          assert variationIds[1..][i] == variationIds[i + 1];
        }
      }
      assert forall i :: 1 <= i < |variationIds| ==> variationIds[i] == variationIds[1..][i - 1];
      if p != 0 then [p] + rest else rest
  }

  /** `array_unique(array_merge($post__in, $parent_ids))`, which is also
      what an empty `post__in` gives. */
  function MergePostIn(postIn: seq<int>, parents: seq<int>): (r: seq<int>)
    ensures NoDups(r)
    ensures forall x :: x in r <==> x in postIn || x in parents
    ensures ArrayUnique(postIn) <= r
  {
    ArrayUniqueKeepsPrefix(postIn, parents);
    var r := ArrayUnique(postIn + parents);
    assert forall x :: x in postIn + parents <==> x in postIn || x in parents;
    r
  }

  /** The host services the handler calls: the attribute taxonomies
      (`wc_get_attribute_taxonomies`), `sanitize_title`, `get_posts` on the
      meta query, and `wp_get_post_parent_id`. */
  datatype Host = Host(
    attributes: seq<string>,
    sanitizeTitle: string -> string,
    findVariations: seq<MetaClause> -> seq<int>,
    parentOf: int -> int)

  /** The parent ids the handler finds for this request, if it searches
      variations at all. */
  function FoundParents(s: Settings, req: Request, host: Host): seq<int>
  {
    var exact := EffectiveExact(s, req, Variations);
    var q := VariationMetaQuery(req.term, exact, host.attributes, host.sanitizeTitle, CustomFieldNames(s));
    ParentIds(host.findVariations(q), host.parentOf)
  }

  /** `handle_variation_search`: the new `post__in`, or `None` when the
      handler leaves it alone. The existing list comes first and repeats
      are dropped, the first occurrence kept. */
  function HandleVariationSearch(s: Settings, req: Request, q: QueryContext, host: Host, postIn: seq<int>): (r: Option<seq<int>>)
    ensures r.Some? <==> IsProductSearch(q) && Enabled(s, Variations) && |FoundParents(s, req, host)| > 0
    ensures r.Some? ==> r.value == MergePostIn(postIn, FoundParents(s, req, host))
  {
    if !IsProductSearch(q) || !Enabled(s, Variations) then None
    else
      var parents := FoundParents(s, req, host);
      if |parents| == 0 then None
      else Some(MergePostIn(postIn, parents))
  }

  /** Every product that owns a matching variation ends up in `post__in`. */
  lemma ParentsIncluded(s: Settings, req: Request, q: QueryContext, host: Host, postIn: seq<int>, v: int)
    requires IsProductSearch(q) && Enabled(s, Variations)
    requires var exact := EffectiveExact(s, req, Variations);
      v in host.findVariations(VariationMetaQuery(req.term, exact, host.attributes, host.sanitizeTitle, CustomFieldNames(s)))
    requires host.parentOf(v) != 0
    ensures var r := HandleVariationSearch(s, req, q, host, postIn);
      r.Some? && host.parentOf(v) in r.value
  {
    var exact := EffectiveExact(s, req, Variations);
    var found := host.findVariations(VariationMetaQuery(req.term, exact, host.attributes, host.sanitizeTitle, CustomFieldNames(s)));
    var i :| 0 <= i < |found| && found[i] == v;
    assert host.parentOf(v) in FoundParents(s, req, host);
  }

  /** Running the handler again with its own output changes nothing more. */
  lemma HandleVariationSearchIdempotent(s: Settings, req: Request, q: QueryContext, host: Host, postIn: seq<int>)
    requires HandleVariationSearch(s, req, q, host, postIn).Some?
    ensures var r := HandleVariationSearch(s, req, q, host, postIn).value;
      HandleVariationSearch(s, req, q, host, r) == Some(r)
  {
    var parents := FoundParents(s, req, host);
    var r := HandleVariationSearch(s, req, q, host, postIn).value;
    assert forall i :: 0 <= i < |parents| ==> parents[i] in r;
    ArrayUniqueAbsorbs(r, parents);
    ArrayUniqueOfNoDups(r);
  }
}
