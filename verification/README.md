# Enhanced product search: a Dafny model of the query-rewriting core

This project models the core of a WooCommerce plugin that widens the storefront's
product search: the `posts_clauses` filter `modify_search_query`, the
`pre_get_posts` action `handle_variation_search`, the cache-clearing part of
`ajax_clear_cache`, and the settings sanitiser `microdog_wces_sanitize_settings`.

- `modify_search_query` runs on the front-end main search query for products.
  - For every enabled field (SKU, custom fields, attributes, categories, tags,
    excerpt) it adds LEFT JOINs and one condition per searched column. Each
    condition is an exact `=` comparison or a `LIKE '%term%'` comparison.
  - It then takes the host's title comparison out of the WHERE clause: the title
    match is replaced by `1=1`. The title and every field condition are
    multiplied by a weight, and the weighted terms are put, as one OR-group,
    where the host's content comparison was.
  - With caching on, it registers a cache key. On a hit it serves the cached ids.
    On a miss it schedules the write of the results.
  - Finally it groups by post id.
- `handle_variation_search` looks up the product variations whose SKU,
  attribute values or custom fields match the term, and merges their parents
  into `post__in`.

The model is written in terms of what the code hands to its collaborators:

- `Php`: the PHP built-ins the code relies on (`empty`, `intval`, `explode`,
  `trim`, `str_replace`, `strpos`, `array_unique`, integer rendering).
- `MySql`: `$wpdb->prepare`'s `%s` quoting (`mysqli_real_escape_string` plus
  quotes, as the statement reaches MySQL) and the MySQL lexer reading such a literal back. Also `$wpdb->esc_like`
  and the `LIKE` operator with its default escape character `\`.
- `Pcre`: `preg_replace`'s treatment of its replacement string (`$n`, `\n`,
  `${n}`, `\\`, `\$`). The matching itself is done by the host's regex engine,
  so the model takes the matches as a parameter.
- `Settings`: the stored option, the per-field switches, and the exact-match
  rule with its request override. Also the custom-field list, the weights and
  the sanitiser.
- `ClauseBuilder`: the per-field JOINs and conditions, and their assembly in
  source order.
- `WeightCompositor`: the weight classification, the title step and the
  OR-group insertion.
- `Cache`: the key registry option, the transients, the lookup, the deferred
  write and the clearing handler.
- `Variations`: the meta query, parent resolution and the `post__in` merge.
- `SearchQuery`: `modify_search_query` as a whole, plus end-to-end scenarios.

## Model

| member | source | states |
|---|---|---|
| Settings.Sanitize | microdog-woocommerce-enhanced-search.php:1099-1132 | Every `search_<field>`/`exact_match_<field>` flag and `enable_caching` is 1 exactly when the key was posted, else 0. `custom_fields_list` is kept (text-sanitised) exactly when posted. A weight is stored exactly when posted, as its `intval` clamped to [1,10]. No other key survives. |
| Settings.SanitizedWeightsInRange | microdog-woocommerce-enhanced-search.php:1119-1129 | After sanitising, every weight the search reads (stored or default) lies in [1,10]. |
| Settings.ResanitizingSetsEveryFlag | microdog-woocommerce-enhanced-search.php:1105-1111 | Sanitising an already sanitised option turns every switch on, because the stored 0 counts as set. |
| Settings.RequestNeverForcesExact | microdog-woocommerce-enhanced-search.php:709-721 | Exact matching is on only when the stored flag is. With an unverified nonce it is exactly the stored flag. With a verified nonce and the flag on it holds exactly when the request parameter is the string `1`. Two requests agreeing on the nonce check and on that parameter get the same mode. |
| Settings.CustomFieldNames | microdog-woocommerce-enhanced-search.php:739-741 | The list is non-empty exactly when `custom_fields_list` is non-empty. It is the trimmed pieces of splitting the setting at commas: some comma-free pieces join back with `,` into the setting, one name per piece, each the piece trimmed. No name holds a comma, and trimming a name again changes nothing. |
| Settings.Weights | microdog-woocommerce-enhanced-search.php:863-878 | Each weight is `intval` of the stored value when the option holds its key, and otherwise its default: title 10, content 5, excerpt 3, SKU 8, attribute 6. |
| ClauseBuilder.MatchSqlMeaning | microdog-woocommerce-enhanced-search.php:725-729 | The quoted operand reads back as the term (exact) or as `%`+`esc_like(term)`+`%`. The comparison holds exactly for the value equal to the term (exact) or for every value containing the term (LIKE). |
| ClauseBuilder.HiddenKeyFilterMeaning | microdog-woocommerce-enhanced-search.php:768-770 | `meta_key NOT LIKE '\_%'` reads back as the pattern `\_%`, which matches exactly the keys starting with `_`. |
| ClauseBuilder.AttributeKeyFilterMeaning | microdog-woocommerce-enhanced-search.php:792-793 | The attribute meta JOIN keeps exactly the meta keys starting with `attribute_`. |
| ClauseBuilder.InternalKeysAreHidden | microdog-woocommerce-enhanced-search.php:758-770 | Every key of the internal exclusion list already fails the `NOT LIKE '\_%'` test. |
| ClauseBuilder.KeyTestReadsBack | microdog-woocommerce-enhanced-search.php:743-765 | Each `cf_meta.meta_key = %s` / `!= %s` test compares with a literal that reads back as exactly the configured or internal key. |
| ClauseBuilder.CustomFieldKeyFilterMeaning | microdog-woocommerce-enhanced-search.php:742-771 | Read back as SQL, the custom-field key filter admits exactly the listed keys when names are configured, and otherwise exactly the keys not starting with `_`; the list of internal keys excludes nothing more. |
| ClauseBuilder.FieldColumnsJoined | microdog-woocommerce-enhanced-search.php:719-843 | Every column a field's block compares is qualified by the posts table or by an alias one of that block's own JOINs introduces, so no condition names a table the block did not join. |
| ClauseBuilder.FieldConditions | microdog-woocommerce-enhanced-search.php:725-842 | One condition per searched column of the field. Apart from custom fields each is exactly the column's comparison with the term in the field's mode. The custom-field condition is the key filter, then ` AND `, then the comparison. |
| ClauseBuilder.BuildClauses | microdog-woocommerce-enhanced-search.php:715-843 | The JOIN aliases are distinct and are exactly those an enabled field needs, in source order, each with its JOIN text. For every field, the compared columns are, in order, exactly that field's columns when it is enabled and none otherwise. Conditions come in source field order. Each is the column's comparison in the field's mode, with the custom-field key filter in front for custom fields, and names only joined tables. |
| ClauseBuilder.JoinClause | microdog-woocommerce-enhanced-search.php:846-848 | Without JOINs the clause is unchanged. Otherwise it is the old clause, a space, and the JOIN texts space-separated in order, so every JOIN text occurs after the old clause. |
| ClauseBuilder.BuiltJoinsAppended | microdog-woocommerce-enhanced-search.php:846-848 | After the filter, the JOIN clause holds the JOIN text of every alias an enabled field needs, after the host's own JOINs. |
| WeightCompositor.WeightedTermCarriesWeight | microdog-woocommerce-enhanced-search.php:893 | A weighted term starts with the condition and ends in the multiplier, which reads back as the weight. |
| WeightCompositor.LikeConditionWeight | microdog-woocommerce-enhanced-search.php:880-893 | In LIKE mode the substring classification gives every non-custom-field condition its own field's weight (excerpt, SKU, attribute, or 1 for categories and tags), whatever the term. |
| WeightCompositor.ExactTermChangesWeight | microdog-woocommerce-enhanced-search.php:883-891 | In exact mode a term containing `post_excerpt` gets the excerpt weight in any column, since classification reads the whole SQL text. |
| WeightCompositor.ExactExcerptTerm | microdog-woocommerce-enhanced-search.php:883-891 | An instance: an exact search for `post_excerpt` in any column is weighted as excerpt. |
| WeightCompositor.TitleMatch | microdog-woocommerce-enhanced-search.php:855 | The reported title match is a substring of the WHERE clause. |
| WeightCompositor.NeutraliseTitle | microdog-woocommerce-enhanced-search.php:855-865 | There is a title term exactly when the title pattern matched something non-empty. It is then the match times the title weight, and the WHERE clause has every occurrence of the match replaced by `1=1`. Otherwise the clause is unchanged. |
| WeightCompositor.TitleStepAtSpan | microdog-woocommerce-enhanced-search.php:855-865 | When the matched text occurs in the WHERE clause only where the pattern found it, the title step puts `1=1` in exactly that span and leaves the rest of the clause as it was. |
| WeightCompositor.ConditionTerms | microdog-woocommerce-enhanced-search.php:880-894 | One weighted term per condition, in order, each multiplied by its classified weight. |
| WeightCompositor.WeightedTerms | microdog-woocommerce-enhanced-search.php:857-894 | The title term (if any) comes first, then one term per condition in order; never empty when there are conditions. |
| WeightCompositor.LikeTermsWeighFields | microdog-woocommerce-enhanced-search.php:880-893 | In LIKE mode every condition the clause builder produces, other than the custom-field one, is weighted by its own field's setting. |
| WeightCompositor.Compose | microdog-woocommerce-enhanced-search.php:896-903 | Without conditions the WHERE clause is unchanged. Otherwise every content match in the title-neutralised clause is replaced by the OR-group, taken verbatim. |
| WeightCompositor.ComposeAgreesWithoutSpecials | microdog-woocommerce-enhanced-search.php:896-903 | When the group holds no `\` or `$`, the unescaped replacement the source passes gives the same clause. |
| WeightCompositor.DollarTermCounterexample | microdog-woocommerce-enhanced-search.php:897-903 | For an exact search for `$0` the unescaped replacement expands to something other than the group; the escaped one expands to the group. |
| WeightCompositor.ComposeAsWrittenDiffers | microdog-woocommerce-enhanced-search.php:896-903 | With one content match and an exact `$0` condition, the compositor as written differs from the corrected one. |
| Pcre.PregReplaceEscaped | microdog-woocommerce-enhanced-search.php:897-903 | With the replacement escaped, `preg_replace` inserts the text verbatim at every match. |
| Pcre.DollarZeroIsTheMatch | microdog-woocommerce-enhanced-search.php:897-903 | An unescaped `$0` in a replacement stands for the matched text. |
| Cache.CacheKey | microdog-woocommerce-enhanced-search.php:917 | The key is `mdwes_` followed by the query digest, which can be read back from it. |
| Cache.Register | microdog-woocommerce-enhanced-search.php:919-924 | The key is in the registry afterwards, nothing else is added, earlier entries keep their places, and a registry without repeats stays without repeats. |
| Cache.LookUp | microdog-woocommerce-enhanced-search.php:919-940 | The registry becomes the old one with the key registered. The store is untouched. A live transient is a hit with its entry, and an absent one is a miss that leaves a write pending. Reading an expired transient deletes its row, so it is no longer stored. |
| Cache.LookUpKeepsGood | microdog-woocommerce-enhanced-search.php:919-926 | A lookup keeps the cache invariant: no repeated names, every stored row (live or expired) registered, no name both live and expired. |
| Cache.RunPendingKeepsGood | microdog-woocommerce-enhanced-search.php:942-951 | The deferred write keeps the invariant when its key is still registered. |
| Cache.RunPending | microdog-woocommerce-enhanced-search.php:942-951 | The callback writes the entry under its key only for the query it belongs to, replacing an expired row of that name, and touches no other entry or row. |
| Cache.Expire | microdog-woocommerce-enhanced-search.php:945-949 | When the hour is up a live transient no longer reads, but its row stays stored as expired. Other entries keep their values. |
| Cache.ExpireKeepsGood | microdog-woocommerce-enhanced-search.php:945-949 | Expiry keeps the cache invariant. |
| Cache.Purge | microdog-woocommerce-enhanced-search.php:945-949 | WordPress's daily cleanup of expired transients deletes every expired row and leaves the registry and the live entries alone. |
| Cache.PurgeKeepsGood | microdog-woocommerce-enhanced-search.php:945-949 | The daily cleanup keeps the cache invariant. |
| Cache.StoreThenLookUp | microdog-woocommerce-enhanced-search.php:926-951 | What the deferred write stores, the next lookup of the same key serves. |
| Cache.IdTestsRoundTrip | microdog-woocommerce-enhanced-search.php:933-938 | The `<posts>.ID = %d` tests joined with ` OR ` read back as exactly the cached ids, in order. |
| Cache.HitWhere | microdog-woocommerce-enhanced-search.php:933-939 | A hit with no ids leaves the WHERE clause alone. Otherwise the clause is ` AND (`...`)` around a list of id tests that reads back as exactly the cached ids. |
| Cache.DeleteAll | microdog-woocommerce-enhanced-search.php:205-210 | Exactly the listed names are gone, whether their rows were live or expired. The other live entries keep their values and the other expired rows stay. |
| Cache.DeleteAllCounts | microdog-woocommerce-enhanced-search.php:203-210 | The reported count is the number of stored names actually removed, live or expired, even if the list repeats a name. |
| Cache.ClearCache | microdog-woocommerce-enhanced-search.php:188-216 | A missing or failing nonce, then a missing capability, are refused with nothing changed. A verified nonce with the capability always clears: the registry is emptied, and exactly the registered names are removed and counted, whether their rows are live or expired. Every remaining entry keeps its value. |
| Cache.ClearEmptiesGood | microdog-woocommerce-enhanced-search.php:201-212 | From a state keeping the invariant, a permitted clear leaves no stored row. It reports all of them: the live entries plus the expired rows. |
| Cache.ExpiredRowStillCounted | microdog-woocommerce-enhanced-search.php:201-212 | A search misses and stores its results, the hour passes, and a permitted clear still deletes the expired row and reports 1. |
| Cache.ExpireKeepsClearCount | microdog-woocommerce-enhanced-search.php:201-212 | From a state keeping the invariant, expiry does not change what a clear reports. |
| Cache.ClearTwice | microdog-woocommerce-enhanced-search.php:201-212 | From any state, including one with live unregistered entries, a second clear right after a permitted first one reports 0 and changes nothing. |
| Cache.ClearRacesPendingWrite | microdog-woocommerce-enhanced-search.php:201-212 | A miss, then a clear, then the miss's write leaves a live entry that is not registered; a further clear reports 0 and leaves it in place. |
| Cache.StaleRegistrationBreaksGood | microdog-woocommerce-enhanced-search.php:919-924 | When two searches with new keys both read the registry before either writes it back, the later write drops the other key. That search's transient is then written live but unregistered, which breaks the cache invariant. |
| Variations.ClauseMeaning | microdog-woocommerce-enhanced-search.php:984-1058 | A meta clause with an `=` key test matches when one row has the key and a value equal to (exact) or containing (LIKE) the term. A `compare_key => NOT LIKE` clause needs such a value on some row and no row whose key contains the clause key. A hidden-key test needs such a value on a row whose key does not start with `_`. |
| Variations.VariationMetaQuery | microdog-woocommerce-enhanced-search.php:984-1059 | The query has the `_sku` clause, then one `attribute_pa_<slug>` clause per attribute taxonomy, then one clause per listed custom field or else the fallback on key `_`. Every key is compared with `=`, and every value with the term, using `=` exactly in exact mode. |
| Variations.VariationQueryMeaning | microdog-woocommerce-enhanced-search.php:984-1059 | A variation is found exactly when one of its meta rows has a queried key (`_sku`, an `attribute_pa_` key, a listed field, or else `_`) and a value equal to or containing the term. |
| Variations.FallbackMatchesUnderscoreKeyOnly | microdog-woocommerce-enhanced-search.php:1044-1058 | As WordPress reads it, the fallback finds a variation only through a meta row whose key is exactly `_`. |
| Variations.FallbackMissesCustomMeta | microdog-woocommerce-enhanced-search.php:1044-1058 | A variation whose only meta is a visible field holding the term is missed by the fallback as written and found by the corrected one. |
| Variations.CompareKeyFallbackMisses | microdog-woocommerce-enhanced-search.php:1044-1058 | With the operator spelt `compare_key`, the fallback still misses that variation once it also has a `_sku` row, while the corrected one finds it. |
| Variations.IntendedFallbackMeaning | microdog-woocommerce-enhanced-search.php:1044-1058 | The corrected fallback finds exactly the variations with a row that the main query's custom-field key filter admits when no field is listed and whose value matches. |
| Variations.ParentIds | microdog-woocommerce-enhanced-search.php:1071-1079 | The non-zero parent of every found variation is kept, and only those. |
| Variations.MergePostIn | microdog-woocommerce-enhanced-search.php:1081-1085 | The new `post__in` has no repeats, holds exactly the old ids and the parents, and starts with the old list's first occurrences. |
| Variations.HandleVariationSearch | microdog-woocommerce-enhanced-search.php:968-1090 | `post__in` is changed exactly on the front-end main product search, with variations on and at least one parent found; it then becomes the merge of the old list and the parents. |
| Variations.ParentsIncluded | microdog-woocommerce-enhanced-search.php:1069-1085 | The parent of every variation the meta query finds ends up in `post__in`, whatever it held before. |
| Variations.HandleVariationSearchIdempotent | microdog-woocommerce-enhanced-search.php:1081-1085 | Running the handler again on its own output changes nothing. |
| SearchQuery.CacheStep | microdog-woocommerce-enhanced-search.php:916-953 | The key is registered and the invariant kept. A hit serves the entry and the id-restricted WHERE clause, and a miss keeps the composed clause and schedules the write. |
| SearchQuery.ModifySearchQuery | microdog-woocommerce-enhanced-search.php:703-961 | Other queries pass through untouched. For the product search the JOINs are appended and GROUP BY is the post id. Without caching the WHERE clause is the one the source's compositor builds. With caching the key is registered and a hit or miss is handled as above. |
| SearchQuery.ComposedWhereWithoutSpecials | microdog-woocommerce-enhanced-search.php:896-903 | When the weighted group holds no `\` or `$`, the WHERE clause the filter builds is the group inserted verbatim at every content match. |
| SearchQuery.SkuOnlyScenario | microdog-woocommerce-enhanced-search.php:719-729 | With only SKU search on and not exact: one SKU JOIN and one SKU LIKE condition, weighted with the SKU weight. |
| SearchQuery.SkuConditionForAB12 | microdog-woocommerce-enhanced-search.php:728 | The SKU condition for `AB12`, as the statement reaches MySQL, is `sku_meta.meta_value LIKE '%AB12%'`. |
| SearchQuery.CachedSecondRequest | microdog-woocommerce-enhanced-search.php:916-953 | The first of two identical searches misses and schedules the write. The second is served the written entry, with the WHERE clause restricted to its ids. |
| MySql.QuoteRoundTrip | microdog-woocommerce-enhanced-search.php:726 | The literal `prepare` builds for `%s` reads back as exactly the string given. |
| Php.IntToStringRoundTrip | microdog-woocommerce-enhanced-search.php:893 | `intval` of the decimal rendering of an integer is that integer. |
| Php.IntvalFractionForm | microdog-woocommerce-enhanced-search.php:863 | `intval("2.5")` is 2: the fraction is read and truncated. |
| MySql.LikePatternIsSubstring | microdog-woocommerce-enhanced-search.php:728 | `LIKE '%' + esc_like(t) + '%'` matches exactly the values containing `t`. |
| Php.ArrayUniqueKeepsPrefix | microdog-woocommerce-enhanced-search.php:1085 | `array_unique(array_merge(a, b))` starts with `array_unique(a)`. |

## Left out

- The host is a set of parameters, not part of this model:
  - WordPress hooks and their dispatch.
  - `is_admin`, the query flags, `sanitize_text_field`, `sanitize_title`, `wp_verify_nonce` and `current_user_can`.
  - `get_posts`, `wp_get_post_parent_id` and `wc_get_attribute_taxonomies`.
  - The md5 digest of the query variables.
  - The regular-expression engine's matches.
- Not modelled at all:
  - The clock behind the transient lifetime of one hour. Expiry and WordPress's daily cleanup of expired rows are the explicit steps `Cache.Expire` and `Cache.Purge`.
  - A persistent object cache. Transients are taken to live in the options table, where an expired row stays until it is read or cleaned up.
  - The JSON responses of the AJAX handler. They are reduced to the outcome and the count.
  - The settings page, assets, activation, deactivation and translation.
- SQL evaluation is not modelled beyond single comparisons:
  - Collation, so `=` and `LIKE` are case-sensitive here.
  - Row multiplication by the LEFT JOINs, which GROUP BY undoes.
  - Operator precedence in `cond LIKE '…' * w`, and what the host's ordering makes of the products.
- The meta-clause meaning in `Variations.ClauseMatches` is how WordPress's `WP_Meta_Query` renders a clause; `WP_Meta_Query` itself is not part of this model.
  - A clause without `compare_key` tests `meta_key = key` and the value on the same row.
  - `compare_key => NOT LIKE` becomes a `NOT EXISTS` over all of the post's meta rows whose key is LIKE `%key%`.
  - `LIKE` wraps the `esc_like`-escaped operand in `%`.
  - The found variations are a parameter (`get_posts`), so the handler's result is not derived from `MetaQueryMatches`.
- `intval` on strings covers leading whitespace, a sign, digits, a fraction and an exponent (PHP 7.1 and later). Numbers in other bases are not modelled.
- Settings.Sanitize: a posted weight is read with exact decimal arithmetic. PHP goes through a float when the text has a fraction or an exponent, so its rounding beyond about 15 significant digits is not modelled. Nor is an exponent so large that the float is infinite: PHP then gives 0, clamped to 1, where the model gives 10. 64-bit saturation of long digit strings makes no difference after clamping to [1,10].
- The WHERE clause is text here and is not evaluated as SQL. WordPress puts each search word's comparisons in one OR-group, `((title LIKE …) OR (excerpt LIKE …) OR (content LIKE …))`. The `1=1` the title step leaves in that group makes the group true for every post. The model states the text (`WeightCompositor.NeutraliseTitle`, `WeightCompositor.TitleStepAtSpan`) but not this consequence.
- SearchQuery.ModifySearchQuery: models the program, so it builds the WHERE clause with the compositor as written (`WeightCompositor.ComposeAsWritten`). The corrected `WeightCompositor.Compose` is the second half of the first Findings row. `SearchQuery.ComposedWhereWithoutSpecials` shows the two agree unless the group holds `\` or `$`.
- Variations.HandleVariationSearch: models the program, so its meta query carries the fallback as written (`Variations.FallbackClause`). The corrected `Variations.IntendedFallbackClause` is the second half of the second Findings row.
- The source's fall-back branch for an empty weighted list (lines 904-911) is unreachable: the list always holds one term per condition. `WeightCompositor.WeightedTerms` proves it non-empty.
- WeightCompositor.LikeConditionWeight: covers every field except custom fields.
  - The custom-field condition also contains the configured key names, and a name such as `sku_meta` changes its weight.
  - `WeightCompositor.ExactTermChangesWeight` shows the same effect for exact-mode terms.
- Cache.LookUp: each lookup, deferred write and clear is one atomic step. The source registers a key by reading the option, appending and writing it back (919-924), so concurrent requests can lose an update. `Cache.StaleRegistrationBreaksGood` shows one such interleaving. `Cache.LookUpKeepsGood` holds only for the atomic step.
- The SQL texts are the statement as it reaches MySQL. Since WordPress 4.8.3, `$wpdb->prepare` writes each `%` inside a quoted value as a `{…}` placeholder of braces and hex digits, and the `query` filter turns it back into `%` only when the statement is sent. So the strings that `preg_match`, `str_replace`, `strpos` and `preg_replace` see (856-899) carry the placeholder where the model has `%`. No step depends on the difference: the placeholder holds no classification token (`post_title`, `post_excerpt`, `sku_meta`, …) and no `$` or `\`. The patterns at 856 and 900 do not mention `%` and stop at the first `)`, which the placeholder does not contain, so they match the same spans.
- Cache.HitWhere: the cached ids are assumed to be integers, so `%d` renders them exactly.
- On a hit the source replaces the whole WHERE clause with the id test, dropping the host's other restrictions. The model does the same.

## Findings

| source | as written | input that shows it | evidently intended | confidence | as-written member | corrected member |
|---|---|---|---|---|---|---|
| microdog-woocommerce-enhanced-search.php:897-903 | The weighted OR-group, which embeds the prepared search term, is passed to `preg_replace` as the replacement string without escaping, so `$n`, `${n}` and `\n` in it are back references. | An exact-match SKU search for `$0`: the inserted group has the content comparison the pattern matched where the term should be. | The group is inserted verbatim (escape `\` and `$` in the replacement, or use a callback). | not executed | WeightCompositor.ComposeAsWrittenDiffers | WeightCompositor.Compose |
| microdog-woocommerce-enhanced-search.php:1044-1058 | The fallback clause for "all non-internal meta" spells the key operator `key_compare`. `WP_Meta_Query` reads `compare_key`, so the entry is ignored and the clause is `meta_key = '_'` with the term on the value. | Variation search on, no custom fields listed, and a variation whose meta `color` holds the term: no WooCommerce meta key is exactly `_`, so the variation is not found. With `compare_key` it is still missed once the variation also has a `_sku` row. | A per-row test that the key does not start with `_` (the main query's `meta_key NOT LIKE '\_%'`), with the term on the same row. | not executed | Variations.FallbackMissesCustomMeta | Variations.IntendedFallbackMeaning |
