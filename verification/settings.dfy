/** The plugin's settings array (`microdog_wc_enhanced_search_settings`), the
    request-scoped exact-match overrides, and the settings sanitiser
    `microdog_wces_sanitize_settings`. */
module Settings {
  import opened Php

  /** The searchable fields, in the order the sanitiser walks them. */
  datatype Field = Sku | Attributes | CustomFields | Categories | Tags | Excerpt | Variations

  const AllFields: seq<Field> := [Sku, Attributes, CustomFields, Categories, Tags, Excerpt, Variations]

  function FieldName(f: Field): string
  {
    match f
    case Sku => "sku"
    case Attributes => "attributes"
    case CustomFields => "custom_fields"
    case Categories => "categories"
    case Tags => "tags"
    case Excerpt => "excerpt"
    case Variations => "variations"
  }

  function SearchKey(f: Field): string
  {
    "search_" + FieldName(f)
  }

  function ExactKey(f: Field): string
  {
    "exact_match_" + FieldName(f)
  }

  const EnableCachingKey := "enable_caching"
  const CustomFieldsListKey := "custom_fields_list"
  const TitleWeightKey := "title_weight"
  const ContentWeightKey := "content_weight"
  const ExcerptWeightKey := "excerpt_weight"
  const SkuWeightKey := "sku_weight"
  const AttributeWeightKey := "attribute_weight"

  const WeightKeys: seq<string> := [TitleWeightKey, ContentWeightKey, ExcerptWeightKey, SkuWeightKey, AttributeWeightKey]

  /** The stored settings: option name to value; a missing name is unset. */
  type Settings = map<string, Value>

  /** `!empty($this->settings[$key])`. */
  predicate Flag(s: Settings, key: string)
  {
    key in s && !IsEmpty(s[key])
  }

  /** The `search_<field>` switch. */
  predicate Enabled(s: Settings, f: Field)
  {
    Flag(s, SearchKey(f))
  }

  /** The query the hooks are called for. `postType` is what
      `$query->get('post_type')` returns: the empty string when unset. */
  datatype QueryContext = QueryContext(isAdmin: bool, isSearch: bool, isMainQuery: bool, postType: string)

  /** Both hooks act only on the front-end main search query for products. */
  predicate IsProductSearch(q: QueryContext)
  {
    !q.isAdmin && q.isSearch && q.isMainQuery && q.postType == "product"
  }

  /** What the search core reads from the current request: the sanitised
      term, whether the `_wpnonce` parameter verified for the
      `woocommerce-search` action, and the raw GET parameters. */
  datatype Request = Request(term: string, nonceVerified: bool, params: map<string, string>)

  /** `isset($_GET[$key]) && $_GET[$key] === '1'`. */
  predicate RequestsExact(req: Request, f: Field)
  {
    ExactKey(f) in req.params && req.params[ExactKey(f)] == "1"
  }

  /** The exact-match rule applied to every field: the stored flag must be on,
      and a verified request must in addition ask for it. A request can
      therefore only switch exact matching off, never on. */
  predicate EffectiveExact(s: Settings, req: Request, f: Field)
  {
    Flag(s, ExactKey(f)) && (!req.nonceVerified || RequestsExact(req, f))
  }

  /** The request can only switch exact matching off: with the stored flag
      off no request turns it on; an unverified request is ignored; a
      verified one keeps it on only by sending the field's own parameter as
      exactly `1`; and no other parameter has any say. */
  lemma RequestNeverForcesExact(s: Settings, r1: Request, r2: Request, f: Field)
    ensures !Flag(s, ExactKey(f)) ==> !EffectiveExact(s, r1, f)
    ensures !r1.nonceVerified ==> (EffectiveExact(s, r1, f) <==> Flag(s, ExactKey(f)))
    ensures r1.nonceVerified && Flag(s, ExactKey(f)) ==>
              (EffectiveExact(s, r1, f) <==> ExactKey(f) in r1.params && r1.params[ExactKey(f)] == "1")
    ensures r1.nonceVerified == r2.nonceVerified
         && (ExactKey(f) in r1.params <==> ExactKey(f) in r2.params)
         && (ExactKey(f) in r1.params ==> r1.params[ExactKey(f)] == r2.params[ExactKey(f)])
         ==> (EffectiveExact(s, r1, f) <==> EffectiveExact(s, r2, f))
  {
  }

  // ---------------------------------------------------------------------------
  // custom_fields_list
  // ---------------------------------------------------------------------------

  function MapTrim(xs: seq<string>): (r: seq<string>)
    ensures |r| == |xs| && forall i :: 0 <= i < |xs| ==> r[i] == Trim(xs[i])
  {
    if |xs| == 0 then [] else [Trim(xs[0])] + MapTrim(xs[1..])
  }

  /** `array_map('trim', explode(',', $list))` when the list setting is
      non-empty, otherwise no names. A list of `"0"` counts as empty. The
      names are the trimmed comma-free pieces that glue back, with commas,
      into the stored list. */
  function CustomFieldNames(s: Settings): (r: seq<string>)
    ensures |r| > 0 <==> Flag(s, CustomFieldsListKey)
    ensures Flag(s, CustomFieldsListKey) ==>
              |r| == CountChar(StrVal(s[CustomFieldsListKey]), ',') + 1
    ensures Flag(s, CustomFieldsListKey) ==>
              exists ps :: Implode(",", ps) == StrVal(s[CustomFieldsListKey]) && |ps| == |r|
                && forall i :: 0 <= i < |ps| ==> ',' !in ps[i] && r[i] == Trim(ps[i])
    ensures forall i :: 0 <= i < |r| ==> ',' !in r[i] && Trim(r[i]) == r[i]
  {
    if Flag(s, CustomFieldsListKey) then
      var list := StrVal(s[CustomFieldsListKey]);
      var pieces := Explode(list, ',');
      ExplodeImplode(list, ',');
      var r := MapTrim(pieces);
      assert forall i :: 0 <= i < |r| ==> ',' !in r[i] && Trim(r[i]) == r[i] by {
        forall i | 0 <= i < |r|
          ensures ',' !in r[i] && Trim(r[i]) == r[i]
        {
          TrimNoNewChars(pieces[i], ',');
          TrimIdempotent(pieces[i]);
        }
      }
      assert Implode(",", pieces) == list;
      r
    else []
  }

  lemma TrimNoNewChars(x: string, c: char)
    requires c !in x
    ensures c !in Trim(x)
  {
  }

  // ---------------------------------------------------------------------------
  // Weights
  // ---------------------------------------------------------------------------

  /** The weights the compositor uses. `content` is read but never applied. */
  datatype WeightTable = WeightTable(title: int, content: int, excerpt: int, sku: int, attribute: int)

  /** `isset($this->settings[$key]) ? intval($this->settings[$key]) : $default`. */
  function WeightSetting(s: Settings, key: string, default: int): int
  {
    if key in s then IntVal(s[key]) else default
  }

  function Weights(s: Settings): (w: WeightTable)
    ensures w.title == if TitleWeightKey in s then IntVal(s[TitleWeightKey]) else 10
    ensures w.content == if ContentWeightKey in s then IntVal(s[ContentWeightKey]) else 5
    ensures w.excerpt == if ExcerptWeightKey in s then IntVal(s[ExcerptWeightKey]) else 3
    ensures w.sku == if SkuWeightKey in s then IntVal(s[SkuWeightKey]) else 8
    ensures w.attribute == if AttributeWeightKey in s then IntVal(s[AttributeWeightKey]) else 6
  {
    WeightTable(
      WeightSetting(s, TitleWeightKey, 10),
      WeightSetting(s, ContentWeightKey, 5),
      WeightSetting(s, ExcerptWeightKey, 3),
      WeightSetting(s, SkuWeightKey, 8),
      WeightSetting(s, AttributeWeightKey, 6))
  }

  // ---------------------------------------------------------------------------
  // microdog_wces_sanitize_settings
  // ---------------------------------------------------------------------------

  /** A key of the form `search_<field>` or `exact_match_<field>`. */
  predicate IsFlagKey(k: string)
  {
    exists f :: k == SearchKey(f) || k == ExactKey(f)
  }

  function Checkbox(input: map<string, Value>, key: string): Value
  {
    Int(if key in input then 1 else 0)
  }

  /** Both checkboxes of `f` are stored in `m` as `1`/`0` by presence in the input. */
  predicate HoldsFlags(input: map<string, Value>, m: map<string, Value>, f: Field)
  {
    && SearchKey(f) in m && m[SearchKey(f)] == Checkbox(input, SearchKey(f))
    && ExactKey(f) in m && m[ExactKey(f)] == Checkbox(input, ExactKey(f))
  }

  /** One step of the first loop: both checkboxes of `f` become `1` or `0`
      by presence of the key in the input. */
  function PutFlags(input: map<string, Value>, acc: map<string, Value>, f: Field): (m: map<string, Value>)
    ensures HoldsFlags(input, m, f)
    ensures forall k :: k in m <==> k in acc || k == SearchKey(f) || k == ExactKey(f)
    ensures forall k :: k in acc && k != SearchKey(f) && k != ExactKey(f) ==> m[k] == acc[k]
  {
    assert SearchKey(f) != ExactKey(f) by {
      assert SearchKey(f)[0] == 's' && ExactKey(f)[0] == 'e';
    }
    acc[SearchKey(f) := Checkbox(input, SearchKey(f))][ExactKey(f) := Checkbox(input, ExactKey(f))]
  }

  /** The first loop of the sanitiser: for each field, both checkboxes
      become `1` or `0` by presence of the key in the input. */
  function PutFieldFlags(input: map<string, Value>, fields: seq<Field>, acc: map<string, Value>): (out: map<string, Value>)
    ensures forall f :: f in fields ==> HoldsFlags(input, out, f)
    ensures forall k :: k in out ==> k in acc || IsFlagKey(k)
    ensures forall k :: k in acc ==> k in out && (out[k] == acc[k] || out[k] == Checkbox(input, k))
    ensures forall k :: k in acc && !IsFlagKey(k) ==> out[k] == acc[k]
  {
    if |fields| == 0 then acc
    else
      var f := fields[0];
      var acc' := PutFlags(input, acc, f);
      var out := PutFieldFlags(input, fields[1..], acc');
      assert IsFlagKey(SearchKey(f)) && IsFlagKey(ExactKey(f));
      assert HoldsFlags(input, out, f);
      assert forall g :: g in fields ==> g == f || g in fields[1..];
      out
  }

  /** The second loop: each weight the input carries is read with `intval`
      and clamped to [1, 10]; absent weights stay absent. */
  function PutWeights(input: map<string, Value>, keys: seq<string>, acc: map<string, Value>): (out: map<string, Value>)
    ensures forall i :: 0 <= i < |keys| && keys[i] in input ==>
              keys[i] in out && out[keys[i]] == Int(Clamp(IntVal(input[keys[i]]), 1, 10))
    ensures forall k :: k in out <==> k in acc || (k in keys && k in input)
    ensures forall k :: k in acc && (k !in keys || k !in input) ==> out[k] == acc[k]
  {
    if |keys| == 0 then acc
    else
      var k := keys[0];
      var acc' := if k in input then acc[k := Int(Clamp(IntVal(input[k]), 1, 10))] else acc;
      var out := PutWeights(input, keys[1..], acc');
      assert forall x :: x in keys <==> x == k || x in keys[1..];
      out
  }

  lemma EveryFieldListed(f: Field)
    ensures f in AllFields
  {
    match f
    case Sku => assert AllFields[0] == f;
    case Attributes => assert AllFields[1] == f;
    case CustomFields => assert AllFields[2] == f;
    case Categories => assert AllFields[3] == f;
    case Tags => assert AllFields[4] == f;
    case Excerpt => assert AllFields[5] == f;
    case Variations => assert AllFields[6] == f;
  }

  lemma SearchKeyIsNoOtherKey(f: Field)
    ensures SearchKey(f) != EnableCachingKey && SearchKey(f) != CustomFieldsListKey && SearchKey(f) !in WeightKeys
  {
    var k := SearchKey(f);
    assert k[0] == 's' && k[1] == 'e';
  }

  lemma ExactKeyIsNoOtherKey(f: Field)
    ensures ExactKey(f) != EnableCachingKey && ExactKey(f) != CustomFieldsListKey && ExactKey(f) !in WeightKeys
  {
    var k := ExactKey(f);
    assert k[0] == 'e' && k[1] == 'x' && k[2] == 'a';
  }

  /** No checkbox key coincides with a key written later by the sanitiser. */
  lemma FlagKeyIsNoOtherKey(k: string)
    requires IsFlagKey(k)
    ensures k != EnableCachingKey && k != CustomFieldsListKey && k !in WeightKeys
  {
    var f :| k == SearchKey(f) || k == ExactKey(f);
    SearchKeyIsNoOtherKey(f);
    ExactKeyIsNoOtherKey(f);
  }

  /** The checkboxes: both flags of every field, then `enable_caching`. */
  function CheckboxStage(input: map<string, Value>): (m: map<string, Value>)
    ensures forall f :: HoldsFlags(input, m, f)
    ensures EnableCachingKey in m && m[EnableCachingKey] == Checkbox(input, EnableCachingKey)
    ensures forall k :: k in m ==> IsFlagKey(k) || k == EnableCachingKey
  {
    var fieldFlags := PutFieldFlags(input, AllFields, map[]);
    var m := fieldFlags[EnableCachingKey := Checkbox(input, EnableCachingKey)];
    CachingKeyKeepsFlags(input, fieldFlags, m);
    m
  }

  /** Writing `enable_caching` after the field loop leaves every field's
      flags in place. */
  lemma CachingKeyKeepsFlags(input: map<string, Value>, fieldFlags: map<string, Value>, m: map<string, Value>)
    requires fieldFlags == PutFieldFlags(input, AllFields, map[])
    requires m == fieldFlags[EnableCachingKey := Checkbox(input, EnableCachingKey)]
    ensures forall f :: HoldsFlags(input, m, f)
  {
    forall f
      ensures HoldsFlags(input, m, f)
    {
      EveryFieldListed(f);
      assert HoldsFlags(input, fieldFlags, f);
      SearchKeyIsNoOtherKey(f);
      ExactKeyIsNoOtherKey(f);
    }
  }

  /** The sanitiser. `sanitizeText` stands for the host's
      `sanitize_text_field`. */
  function Sanitize(input: map<string, Value>, sanitizeText: string -> string): (out: map<string, Value>)
    ensures forall f :: HoldsFlags(input, out, f)
    ensures EnableCachingKey in out && out[EnableCachingKey] == Checkbox(input, EnableCachingKey)
    ensures CustomFieldsListKey in out <==> CustomFieldsListKey in input
    ensures CustomFieldsListKey in input ==>
              out[CustomFieldsListKey] == Str(sanitizeText(StrVal(input[CustomFieldsListKey])))
    ensures forall k :: k in WeightKeys ==> (k in out <==> k in input)
    ensures forall k :: k in WeightKeys && k in input ==> out[k] == Int(Clamp(IntVal(input[k]), 1, 10))
    ensures forall k :: k in out ==>
              IsFlagKey(k) || k == EnableCachingKey || k == CustomFieldsListKey || k in WeightKeys
  {
    assert forall f :: HoldsFlags(input, SanitizeStages(input, sanitizeText), f) by {
      forall f
        ensures HoldsFlags(input, SanitizeStages(input, sanitizeText), f)
      {
        StagesFlags(input, sanitizeText, f);
      }
    }
    StagesCustomFieldList(input, sanitizeText);
    StagesWeights(input, sanitizeText);
    StagesKeys(input, sanitizeText);
    SanitizeStages(input, sanitizeText)
  }

  /** The three stages of the sanitiser: the checkboxes, the custom-field
      list, the weights. */
  function SanitizeStages(input: map<string, Value>, sanitizeText: string -> string): map<string, Value>
  {
    PutWeights(input, WeightKeys, ListStage(input, sanitizeText, CheckboxStage(input)))
  }

  /** Weight keys are untouched by the first two stages. */
  lemma NoWeightKeyBeforeWeights(input: map<string, Value>, sanitizeText: string -> string)
    ensures forall k :: k in WeightKeys ==> k !in ListStage(input, sanitizeText, CheckboxStage(input))
  {
    forall k | k in WeightKeys
      ensures k !in ListStage(input, sanitizeText, CheckboxStage(input))
    {
      WeightKeyIsNoOtherKey(k);
    }
  }

  /** Both checkboxes of every field and `enable_caching` are stored as `1`
      when their key was posted and `0` otherwise. */
  lemma StagesFlags(input: map<string, Value>, sanitizeText: string -> string, f: Field)
    ensures var out := SanitizeStages(input, sanitizeText);
      && SearchKey(f) in out && out[SearchKey(f)] == Checkbox(input, SearchKey(f))
      && ExactKey(f) in out && out[ExactKey(f)] == Checkbox(input, ExactKey(f))
      && EnableCachingKey in out && out[EnableCachingKey] == Checkbox(input, EnableCachingKey)
  {
    var flags := CheckboxStage(input);
    assert HoldsFlags(input, flags, f);
    SearchKeyIsNoOtherKey(f);
    ExactKeyIsNoOtherKey(f);
    assert EnableCachingKey !in WeightKeys && EnableCachingKey != CustomFieldsListKey;
  }

  /** `custom_fields_list` is stored, text-sanitised, exactly when posted. */
  lemma StagesCustomFieldList(input: map<string, Value>, sanitizeText: string -> string)
    ensures var out := SanitizeStages(input, sanitizeText);
      && (CustomFieldsListKey in out <==> CustomFieldsListKey in input)
      && (CustomFieldsListKey in input ==>
            out[CustomFieldsListKey] == Str(sanitizeText(StrVal(input[CustomFieldsListKey]))))
  {
    ListKeyIsNoFlagKey();
    assert CustomFieldsListKey !in WeightKeys;
  }

  /** A weight is stored exactly when posted, as its `intval` clamped to
      [1, 10]. */
  lemma StagesWeights(input: map<string, Value>, sanitizeText: string -> string)
    ensures var out := SanitizeStages(input, sanitizeText);
      && (forall k :: k in WeightKeys ==> (k in out <==> k in input))
      && (forall k :: k in WeightKeys && k in input ==> out[k] == Int(Clamp(IntVal(input[k]), 1, 10)))
  {
    NoWeightKeyBeforeWeights(input, sanitizeText);
  }

  /** No other key survives: the output holds checkboxes, the list and the
      weights only. */
  lemma StagesKeys(input: map<string, Value>, sanitizeText: string -> string)
    ensures forall k :: k in SanitizeStages(input, sanitizeText) ==>
              IsFlagKey(k) || k == EnableCachingKey || k == CustomFieldsListKey || k in WeightKeys
  {
  }

  /** The custom-field list, stored sanitised when the input carries one. */
  function ListStage(input: map<string, Value>, sanitizeText: string -> string, flags: map<string, Value>): (m: map<string, Value>)
    ensures forall k :: k in m <==> k in flags || (k == CustomFieldsListKey && CustomFieldsListKey in input)
    ensures forall k :: k in flags && k != CustomFieldsListKey ==> m[k] == flags[k]
    ensures CustomFieldsListKey in input ==>
              m[CustomFieldsListKey] == Str(sanitizeText(StrVal(input[CustomFieldsListKey])))
  {
    if CustomFieldsListKey in input
    then flags[CustomFieldsListKey := Str(sanitizeText(StrVal(input[CustomFieldsListKey])))]
    else flags
  }

  lemma ListKeyIsNoFlagKey()
    ensures !IsFlagKey(CustomFieldsListKey)
  {
    if IsFlagKey(CustomFieldsListKey) {
      FlagKeyIsNoOtherKey(CustomFieldsListKey);
    }
  }

  /** A weight key is none of the keys the earlier stages write. */
  lemma WeightKeyIsNoOtherKey(k: string)
    requires k in WeightKeys
    ensures !IsFlagKey(k) && k != EnableCachingKey && k != CustomFieldsListKey
  {
    if IsFlagKey(k) {
      FlagKeyIsNoOtherKey(k);
    }
    assert k[0] != 'e' || k[1] != 'n';
    assert k[0] != 'c' || k[1] != 'u';
  }

  /** Every weight a sanitised array carries, as the compositor reads it back
      with `intval`, lies in [1, 10]; absent weights fall back to the
      compositor's defaults, which lie there too. */
  lemma SanitizedWeightsInRange(input: map<string, Value>, sanitizeText: string -> string)
    ensures var w := Weights(Sanitize(input, sanitizeText));
      && 1 <= w.title <= 10 && 1 <= w.content <= 10 && 1 <= w.excerpt <= 10
      && 1 <= w.sku <= 10 && 1 <= w.attribute <= 10
  {
  }

  /** Checkboxes are sanitised by presence, not value: feeding the output
      back in switches every field and exact-match flag on, including those
      the first pass stored as 0. */
  lemma ResanitizingSetsEveryFlag(input: map<string, Value>, sanitizeText: string -> string, f: Field)
    ensures var twice := Sanitize(Sanitize(input, sanitizeText), sanitizeText);
      && SearchKey(f) in twice && twice[SearchKey(f)] == Int(1)
      && ExactKey(f) in twice && twice[ExactKey(f)] == Int(1)
      && EnableCachingKey in twice && twice[EnableCachingKey] == Int(1)
  {
    var once := Sanitize(input, sanitizeText);
    assert HoldsFlags(input, once, f);
    assert HoldsFlags(once, Sanitize(once, sanitizeText), f);
  }
}
