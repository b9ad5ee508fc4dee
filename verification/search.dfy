/** `modify_search_query`, the `posts_clauses` filter: for the front-end main
    product search it adds the field JOINs, folds the field conditions into a
    weighted OR-group in the WHERE clause, serves or schedules the cached
    result, and groups the rows by post id. */
module SearchQuery {
  import opened Php
  import opened MySql
  import opened Pcre
  import opened Settings
  import opened ClauseBuilder
  import opened WeightCompositor
  import opened Cache

  /** The parts of the `$clauses` array the filter rewrites. */
  datatype QueryClauses = QueryClauses(where: string, join: string, groupby: string)

  /** What the host supplies: the table names, its regular-expression
      engine, and the digest of the query variables the cache key is made
      from. */
  datatype Env = Env(tables: Tables, patterns: HostPatterns, digest: string)

  /** The filter's effect: the new clauses, the cache after the lookup, the
      cached entry served on a hit (whose counts become the query's
      `found_posts` and `max_num_pages`), and the key of the write scheduled
      on a miss. */
  datatype Outcome = Outcome(clauses: QueryClauses, cache: CacheState, served: Option<Entry>, pending: Option<string>)

  /** The WHERE clause before the cache is consulted, composed as the
      source does it: the weighted group goes to `preg_replace` unescaped. */
  function ComposedWhere(s: Settings, req: Request, env: Env, where: string): string
    requires ValidPatterns(env.patterns)
  {
    ComposeAsWritten(env.patterns, where, BuildClauses(s, req, env.tables).conditions, Weights(s))
  }

  /** Unless the group holds a `\` or a `$`, the WHERE clause the filter
      builds is the corrected compositor's: the group verbatim at every
      content match. */
  lemma ComposedWhereWithoutSpecials(s: Settings, req: Request, env: Env, where: string)
    requires ValidPatterns(env.patterns)
    requires var conds := BuildClauses(s, req, env.tables).conditions;
      |conds| > 0 && Plain(Group(WeightedTerms(NeutraliseTitle(env.patterns, where, Weights(s)), conds, Weights(s))))
    ensures var conds := BuildClauses(s, req, env.tables).conditions;
      var title := NeutraliseTitle(env.patterns, where, Weights(s));
      ComposedWhere(s, req, env, where) ==
        ReplaceVerbatim(title.where, env.patterns.content(title.where), Group(WeightedTerms(title, conds, Weights(s))))
  {
    ComposeAgreesWithoutSpecials(env.patterns, where, BuildClauses(s, req, env.tables).conditions, Weights(s));
  }

  /** The cache step, run only with `enable_caching` on: register the key,
      then serve a hit (replacing the WHERE clause by the cached ids when
      there are any) or schedule the write. */
  function CacheStep(st: CacheState, key: string, posts: string, where: string): (r: (CacheState, string, Option<Entry>, Option<string>))
    ensures key in r.0.registry && r.0.store == st.store
    ensures Good(st) ==> Good(r.0)
    ensures key in st.store ==> r.1 == HitWhere(where, posts, st.store[key]) && r.2 == Some(st.store[key]) && r.3.None?
    ensures key !in st.store ==> r.1 == where && r.2.None? && r.3 == Some(key)
  {
    var (st', look) := LookUp(st, key);
    LookUpKeepsGood(st, key);
    match look
    case Hit(e) => (st', HitWhere(where, posts, e), Some(e), None)
    case Miss(k) => (st', where, None, Some(k))
  }

  function ModifySearchQuery(s: Settings, req: Request, q: QueryContext, env: Env, clauses: QueryClauses, st: CacheState): (o: Outcome)
    requires ValidPatterns(env.patterns)
    ensures !IsProductSearch(q) ==> o == Outcome(clauses, st, None, None)
    ensures IsProductSearch(q) ==>
              && o.clauses.groupby == env.tables.posts + ".ID"
              && o.clauses.join == JoinClause(clauses.join, BuildClauses(s, req, env.tables).joins)
    ensures IsProductSearch(q) && !Flag(s, EnableCachingKey) ==>
              && o.clauses.where == ComposedWhere(s, req, env, clauses.where)
              && o.cache == st && o.served.None? && o.pending.None?
    ensures IsProductSearch(q) && Flag(s, EnableCachingKey) ==>
              var key := CacheKey(env.digest);
              && key in o.cache.registry && o.cache.store == st.store
              && (Good(st) ==> Good(o.cache))
              && (key in st.store ==>
                    o.served == Some(st.store[key]) && o.pending.None?
                    && o.clauses.where == HitWhere(ComposedWhere(s, req, env, clauses.where), env.tables.posts, st.store[key]))
              && (key !in st.store ==>
                    o.served.None? && o.pending == Some(key)
                    && o.clauses.where == ComposedWhere(s, req, env, clauses.where))
  {
    if !IsProductSearch(q) then Outcome(clauses, st, None, None)
    else
      var built := BuildClauses(s, req, env.tables);
      var join := JoinClause(clauses.join, built.joins);
      var where := ComposedWhere(s, req, env, clauses.where);
      var groupby := env.tables.posts + ".ID";
      if !Flag(s, EnableCachingKey) then Outcome(QueryClauses(where, join, groupby), st, None, None)
      else
        var (st', where', served, pending) := CacheStep(st, CacheKey(env.digest), env.tables.posts, where);
        Outcome(QueryClauses(where', join, groupby), st', served, pending)
  }

  // ---------------------------------------------------------------------------
  // Scenarios
  // ---------------------------------------------------------------------------

  lemma {:induction false} CollectNoneEnabled(s: Settings, req: Request, t: Tables, fields: seq<Field>)
    requires forall i :: 0 <= i < |fields| ==> !Enabled(s, fields[i])
    ensures Collect(s, req, t, fields) == Clauses([], [])
    decreases |fields|
  {
    if |fields| > 0 {
      CollectNoneEnabled(s, req, t, fields[1..]);
    }
  }

  /** Only SKU search on, not exact: one SKU JOIN, one LIKE condition on the
      SKU meta value, weighted with the SKU weight. */
  lemma SkuOnlyScenario(s: Settings, req: Request, t: Tables)
    requires Enabled(s, Sku) && !Flag(s, ExactKey(Sku))
    requires forall f :: f != Sku ==> !Enabled(s, f)
    ensures var c := BuildClauses(s, req, t);
      && Keys(c.joins) == [SkuJoin]
      && c.conditions == [Condition(Sku, "sku_meta.meta_value", MatchSql("sku_meta.meta_value", false, req.term))]
      && ConditionTerms(c.conditions, Weights(s)) == [WeightedTerm(MatchSql("sku_meta.meta_value", false, req.term), Weights(s).sku)]
  {
    CollectNoneEnabled(s, req, t, QueryOrder[1..]);
    var c := BuildClauses(s, req, t);
    var b := FieldBlock(s, req, t, Sku);
    assert c.joins == b.joins + [] && c.conditions == b.conditions + [];
    assert FieldKeys(Sku) == [SkuJoin];
    assert !EffectiveExact(s, req, Sku);
    assert |b.conditions| == 1;
    var m := MatchSql("sku_meta.meta_value", false, req.term);
    assert b.conditions[0] == Condition(Sku, "sku_meta.meta_value", m);
    LikeConditionWeight(t, Sku, 0, req.term, Weights(s));
  }

  /** In LIKE mode a term without characters special to `esc_like` or to
      quoting appears verbatim between the `%` wildcards. */
  lemma PlainTermCondition(col: string, term: string)
    requires forall i :: 0 <= i < |term| ==> term[i] != '_' && term[i] != '%' && term[i] != '\\'
    requires forall i :: 0 <= i < |term| ==> EscapeChar(term[i]) == [term[i]]
    ensures MatchSql(col, false, term) == col + " LIKE '%" + term + "%'"
  {
    var p := "%" + term + "%";
    assert LikePattern(term) == p by {
      EscLikePlain(term);
    }
    assert RealEscape(p) == p by {
      RealEscapePlain(term);
      assert RealEscape("%") == "%";
      RealEscapeAppend("%", term);
      RealEscapeAppend("%" + term, "%");
    }
    assert MatchSql(col, false, term) == col + " LIKE " + ("'" + p + "'");
  }

  /** For instance the SKU condition for `AB12`: `LIKE '%AB12%'`. */
  lemma SkuConditionForAB12()
    ensures MatchSql("sku_meta.meta_value", false, "AB12") == "sku_meta.meta_value" + " LIKE '%" + "AB12" + "%'"
  {
    PlainTermCondition("sku_meta.meta_value", "AB12");
  }

  /** Two identical searches with caching on: the first misses and schedules
      the write, the write stores the results, and the second is served them
      with the WHERE clause restricted to their ids. */
  lemma CachedSecondRequest(s: Settings, req: Request, q: QueryContext, env: Env, clauses: QueryClauses, st: CacheState, e: Entry)
    requires ValidPatterns(env.patterns) && IsProductSearch(q) && Flag(s, EnableCachingKey)
    requires CacheKey(env.digest) !in st.store
    ensures var first := ModifySearchQuery(s, req, q, env, clauses, st);
      && first.pending == Some(CacheKey(env.digest))
      && var written := RunPending(first.cache, first.pending.value, true, e);
         var second := ModifySearchQuery(s, req, q, env, clauses, written);
         && second.served == Some(e) && second.pending.None?
         && second.clauses.where == HitWhere(ComposedWhere(s, req, env, clauses.where), env.tables.posts, e)
  {
  }
}
