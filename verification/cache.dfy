/** The result cache of `modify_search_query` and the cache-clearing AJAX
    handler. Cached results live in WordPress transients named
    `mdwes_<digest>`; every name handed out is recorded in the option
    `_transient_keys_mdwes_`, the registry the clearing handler walks. A
    transient that has expired reads as absent, but with transients kept in
    the options table its row stays until a read of that name or WordPress's
    daily cleanup deletes it, and `delete_transient` still finds it there. */
module Cache {
  import opened Php

  /** What one cached search remembers. */
  datatype Entry = Entry(foundPosts: int, maxNumPages: int, postIds: seq<int>)

  /** The registry option, the live transients, and the names whose
      transient has expired but whose rows are still stored. */
  datatype CacheState = CacheState(registry: seq<string>, store: map<string, Entry>, expired: set<string>)

  const KeyPrefix := "mdwes_"

  /** `'mdwes_' . md5(serialize($query->query_vars))`; the digest is computed
      by the host and is a parameter here. */
  function CacheKey(digest: string): (k: string)
    ensures StartsWith(k, KeyPrefix) && k[|KeyPrefix|..] == digest
  {
    KeyPrefix + digest
  }

  /** The invariant the cache keeps: the registry lists each name once,
      every stored row, live or expired, is listed so that clearing can find
      it, and no name is both live and expired. */
  predicate Good(st: CacheState)
  {
    && NoDups(st.registry)
    && (forall k :: k in st.store ==> k in st.registry)
    && (forall k :: k in st.expired ==> k in st.registry)
    && (forall k :: k in st.store ==> k !in st.expired)
  }

  /** Appending the key to the registry unless `in_array` finds it there. */
  function Register(registry: seq<string>, key: string): (r: seq<string>)
    ensures key in r
    ensures forall k :: k in r <==> k in registry || k == key
    ensures NoDups(registry) ==> NoDups(r)
    ensures |registry| <= |r| && r[..|registry|] == registry
  {
    if key in registry then registry
    else
      NoDupsSnoc(registry, key);
      registry + [key]
  }

  lemma NoDupsSnoc(s: seq<string>, x: string)
    requires x !in s
    ensures NoDups(s) ==> NoDups(s + [x])
  {
    if NoDups(s) {
      forall i, j | 0 <= i < j < |s + [x]|
        ensures (s + [x])[i] != (s + [x])[j]
      {
        if j == |s| {
          assert (s + [x])[i] == s[i];
        } else {
          assert (s + [x])[i] == s[i] && (s + [x])[j] == s[j];
        }
      }
    }
  }

  /** A miss leaves behind a `the_posts` callback that will cache the
      results of the query under the key. */
  datatype Lookup = Hit(entry: Entry) | Miss(pending: string)

  /** Registering the key and reading the transient. Reading an expired
      transient deletes its row and reads as absent. */
  function LookUp(st: CacheState, key: string): (r: (CacheState, Lookup))
    ensures r.0.store == st.store
    ensures r.0.registry == Register(st.registry, key)
    ensures key !in r.0.expired && forall k :: k in r.0.expired <==> k in st.expired && k != key
    ensures key in r.0.registry
    ensures key in st.store ==> r.1 == Hit(st.store[key])
    ensures key !in st.store ==> r.1 == Miss(key)
  {
    var st' := st.(registry := Register(st.registry, key), expired := st.expired - {key});
    if key in st.store then (st', Hit(st.store[key])) else (st', Miss(key))
  }

  /** The callback firing: it writes the transient only for the main search
      query it was registered for, replacing an expired row of that name. */
  function RunPending(st: CacheState, pending: string, isTarget: bool, e: Entry): (r: CacheState)
    ensures r.registry == st.registry
    ensures isTarget ==> pending in r.store && r.store[pending] == e
    ensures forall k :: k in st.store && k != pending ==> k in r.store && r.store[k] == st.store[k]
    ensures forall k :: k in r.store ==> k in st.store || (isTarget && k == pending)
    ensures forall k :: k in r.expired <==> k in st.expired && !(isTarget && k == pending)
  {
    if isTarget then st.(store := st.store[pending := e], expired := st.expired - {pending}) else st
  }

  /** A live transient running out of time: it no longer reads, but its row
      stays stored. */
  function Expire(st: CacheState, key: string): (r: CacheState)
    ensures r.registry == st.registry && key !in r.store
    ensures forall k :: k in r.store <==> k in st.store && k != key
    ensures forall k :: k in r.store ==> r.store[k] == st.store[k]
    ensures forall k :: k in r.expired <==> k in st.expired || (k == key && key in st.store)
  {
    if key in st.store then st.(store := st.store - {key}, expired := st.expired + {key}) else st
  }

  /** WordPress's daily `delete_expired_transients`: every expired row is
      deleted, and nothing live is touched. */
  function Purge(st: CacheState): (r: CacheState)
    ensures r.registry == st.registry && r.store == st.store && r.expired == {}
  {
    st.(expired := {})
  }

  lemma LookUpKeepsGood(st: CacheState, key: string)
    ensures Good(st) ==> Good(LookUp(st, key).0)
  {
  }

  /** Two searches with different new keys that both read the registry
      before either writes it back: the later `update_option` stores the
      registry it computed from its stale read, which lacks the other key.
      The first search's transient, once its callback writes it, is live
      but unregistered, so the invariant is broken and clearing will not
      find it. */
  lemma StaleRegistrationBreaksGood(st: CacheState, k1: string, k2: string, e: Entry)
    requires Good(st) && k1 != k2 && k1 !in st.registry
    ensures var first := LookUp(st, k1);
      var lost := first.0.(registry := LookUp(st, k2).0.registry);
      var st' := RunPending(lost, k1, true, e);
      && first.1 == Miss(k1)
      && k1 in first.0.registry && k1 !in lost.registry
      && k1 in st'.store && !Good(st')
  {
    var first := LookUp(st, k1);
    assert k1 !in st.store;
    var lost := first.0.(registry := LookUp(st, k2).0.registry);
    assert k1 !in lost.registry;
  }

  lemma ExpireKeepsGood(st: CacheState, key: string)
    requires Good(st)
    ensures Good(Expire(st, key))
  {
  }

  lemma PurgeKeepsGood(st: CacheState)
    requires Good(st)
    ensures Good(Purge(st))
  {
  }

  /** A callback for a key that is still registered keeps the invariant. */
  lemma RunPendingKeepsGood(st: CacheState, pending: string, isTarget: bool, e: Entry)
    requires Good(st) && pending in st.registry
    ensures Good(RunPending(st, pending, isTarget, e))
  {
  }

  /** What the callback writes, the next search with the same key reads. */
  lemma StoreThenLookUp(st: CacheState, key: string, e: Entry)
    ensures var st1 := LookUp(st, key).0;
      LookUp(RunPending(st1, key, true, e), key).1 == Hit(e)
  {
  }

  // ---------------------------------------------------------------------------
  // Serving a hit
  // ---------------------------------------------------------------------------

  /** `$wpdb->prepare("{$posts}.ID = %d", $post_id)`: the id reads back
      from the text after the `=`. */
  function IdTest(posts: string, id: int): string
  {
    posts + ".ID = " + IntToString(id)
  }

  function IdTests(posts: string, ids: seq<int>): (r: seq<string>)
    ensures |r| == |ids| && forall i :: 0 <= i < |ids| ==> r[i] == IdTest(posts, ids[i])
  {
    if |ids| == 0 then [] else [IdTest(posts, ids[0])] + IdTests(posts, ids[1..])
  }

  /** Reads one `<posts>.ID = <id>` test off the front of `s`: the id and
      the text after it. */
  function ReadIdTest(posts: string, s: string): (r: Option<(int, string)>)
    ensures r.Some? ==> |r.value.1| < |s|
  {
    var head := posts + ".ID = ";
    if StartsWith(s, head) then ReadInt(s[|head|..]) else None
  }

  /** Reads a list of `<posts>.ID = <id>` tests joined by ` OR ` back into
      the ids, or `None` when the text has another shape. */
  function ReadIdTests(posts: string, s: string): Option<seq<int>>
    decreases |s|
  {
    match ReadIdTest(posts, s)
    case None => None
    case Some((id, after)) =>
      if after == "" then Some([id])
      else if !StartsWith(after, " OR ") then None
      else match ReadIdTests(posts, after[4..])
        case Some(ids) => Some([id] + ids)
        case None => None
  }

  /** A rendered test reads back as its id, leaving what follows it when
      that does not start with a digit. */
  lemma ReadIdTestRoundTrip(posts: string, id: int, tail: string)
    requires |tail| == 0 || !IsDigit(tail[0])
    ensures ReadIdTest(posts, IdTest(posts, id) + tail) == Some((id, tail))
  {
    var head := posts + ".ID = ";
    var s := IdTest(posts, id) + tail;
    assert s == head + (IntToString(id) + tail);
    assert s[|head|..] == IntToString(id) + tail;
    ReadIntRoundTrip(id, tail);
  }

  /** The tests the hit branch writes read back as the cached ids. */
  lemma {:induction false} IdTestsRoundTrip(posts: string, ids: seq<int>)
    requires |ids| > 0
    ensures ReadIdTests(posts, Implode(" OR ", IdTests(posts, ids))) == Some(ids)
    decreases |ids|
  {
    if |ids| == 1 {
      IdTestsSingle(posts, ids[0]);
      assert ids == [ids[0]];
    } else {
      IdTestsRoundTrip(posts, ids[1..]);
      IdTestsStep(posts, ids);
    }
  }

  lemma IdTestsSingle(posts: string, id: int)
    ensures ReadIdTests(posts, Implode(" OR ", IdTests(posts, [id]))) == Some([id])
  {
    assert Implode(" OR ", IdTests(posts, [id])) == IdTest(posts, id) + "";
    ReadIdTestRoundTrip(posts, id, "");
  }

  lemma IdTestsStep(posts: string, ids: seq<int>)
    requires |ids| > 1
    requires ReadIdTests(posts, Implode(" OR ", IdTests(posts, ids[1..]))) == Some(ids[1..])
    ensures ReadIdTests(posts, Implode(" OR ", IdTests(posts, ids))) == Some(ids)
  {
    var more := Implode(" OR ", IdTests(posts, ids[1..]));
    IdTestsJoin(posts, ids);
    ReadIdTestsCons(posts, ids[0], more, ids[1..]);
    assert ids == [ids[0]] + ids[1..];
  }

  lemma IdTestsJoin(posts: string, ids: seq<int>)
    requires |ids| > 1
    ensures Implode(" OR ", IdTests(posts, ids))
            == IdTest(posts, ids[0]) + (" OR " + Implode(" OR ", IdTests(posts, ids[1..])))
  {
    var ts := IdTests(posts, ids);
    ImplodeCons(" OR ", ts);
    assert ts[1..] == IdTests(posts, ids[1..]);
  }

  lemma ReadIdTestsCons(posts: string, id: int, more: string, ids: seq<int>)
    requires ReadIdTests(posts, more) == Some(ids)
    ensures ReadIdTests(posts, IdTest(posts, id) + (" OR " + more)) == Some([id] + ids)
  {
    var rest := " OR " + more;
    ReadIdTestRoundTrip(posts, id, rest);
    assert rest[4..] == more;
  }

  /** The WHERE clause served on a hit: the cached ids, or the clause
      unchanged when the cached id list is empty. */
  function HitWhere(where: string, posts: string, e: Entry): (r: string)
    ensures |e.postIds| == 0 ==> r == where
    ensures |e.postIds| > 0 ==>
              StartsWith(r, " AND (") && EndsWith(r, ")") && |r| >= 7
              && ReadIdTests(posts, r[6..|r| - 1]) == Some(e.postIds)
  {
    if |e.postIds| == 0 then where
    else
      var inner := Implode(" OR ", IdTests(posts, e.postIds));
      var r := " AND (" + inner + ")";
      assert r[6..|r| - 1] == inner;
      IdTestsRoundTrip(posts, e.postIds);
      r
  }

  // ---------------------------------------------------------------------------
  // Clearing
  // ---------------------------------------------------------------------------

  /** `delete_transient` over the listed names, counting the calls that
      found a row to delete, live or expired. */
  function DeleteAll(keys: seq<string>, store: map<string, Entry>, expired: set<string>): (r: (nat, map<string, Entry>, set<string>))
    ensures forall k :: k in r.1 <==> k in store && k !in keys
    ensures forall k :: k in r.1 ==> r.1[k] == store[k]
    ensures forall k :: k in r.2 <==> k in expired && k !in keys
    decreases |keys|
  {
    if |keys| == 0 then (0, store, expired)
    else
      var (n, rest, stale) := DeleteAll(keys[1..], store - {keys[0]}, expired - {keys[0]});
      (if keys[0] in store || keys[0] in expired then n + 1 else n, rest, stale)
  }

  /** The count `DeleteAll` reports is the number of stored names it
      removed, duplicates in the list or not. */
  lemma {:induction false} DeleteAllCounts(keys: seq<string>, store: map<string, Entry>, expired: set<string>)
    ensures var (n, rest, stale) := DeleteAll(keys, store, expired);
      n + |rest.Keys + stale| == |store.Keys + expired|
    decreases |keys|
  {
    if |keys| > 0 {
      var x := keys[0];
      DeleteAllCounts(keys[1..], store - {x}, expired - {x});
      StoredWithout(store, expired, x);
    }
  }

  /** Deleting one name from both the live entries and the expired rows
      removes it, and only it, from the stored names. */
  lemma StoredWithout(store: map<string, Entry>, expired: set<string>, x: string)
    ensures (store - {x}).Keys + (expired - {x}) == (store.Keys + expired) - {x}
    ensures |(store - {x}).Keys + (expired - {x})| + (if x in store || x in expired then 1 else 0) == |store.Keys + expired|
  {
    var all := store.Keys + expired;
    assert (store - {x}).Keys + (expired - {x}) == all - {x};
    RemoveOne(all, x);
  }

  lemma RemoveOne(all: set<string>, x: string)
    ensures |all - {x}| + (if x in all then 1 else 0) == |all|
  {
    if x in all {
      assert all == (all - {x}) + {x};
    } else {
      assert all - {x} == all;
    }
  }

  /** A name is stored, live or expired, in at most one way, so the stored
      names number the live entries plus the expired rows. */
  lemma StoredCount(st: CacheState)
    requires forall k :: k in st.store ==> k !in st.expired
    ensures |st.store.Keys + st.expired| == |st.store| + |st.expired|
  {
    assert st.store.Keys * st.expired == {};
  }

  datatype ClearOutcome = SecurityCheckFailed | NotPermitted | Cleared(removed: nat)

  /** `ajax_clear_cache`: the nonce is checked first (a missing one fails),
      then the `manage_woocommerce` capability; only then are the listed
      transients deleted and the registry emptied. */
  function ClearCache(st: CacheState, nonce: Option<string>, verifyNonce: string -> bool, canManage: bool): (r: (ClearOutcome, CacheState))
    ensures (nonce.None? || !verifyNonce(nonce.value)) ==> r == (SecurityCheckFailed, st)
    ensures nonce.Some? && verifyNonce(nonce.value) && !canManage ==> r == (NotPermitted, st)
    ensures nonce.Some? && verifyNonce(nonce.value) && canManage ==> r.0.Cleared?
    ensures forall k :: k in r.1.store ==> k in st.store && r.1.store[k] == st.store[k]
    ensures forall k :: k in r.1.expired ==> k in st.expired
    ensures r.0.Cleared? ==> r.1.registry == []
    ensures r.0.Cleared? ==>
              && (forall k :: k in r.1.store <==> k in st.store && k !in st.registry)
              && (forall k :: k in r.1.expired <==> k in st.expired && k !in st.registry)
              && r.0.removed + |r.1.store.Keys + r.1.expired| == |st.store.Keys + st.expired|
  {
    if nonce.None? || !verifyNonce(nonce.value) then (SecurityCheckFailed, st)
    else if !canManage then (NotPermitted, st)
    else
      var (n, store, expired) := DeleteAll(st.registry, st.store, st.expired);
      DeleteAllCounts(st.registry, st.store, st.expired);
      (Cleared(n), CacheState([], store, expired))
  }

  /** From a good state, a permitted clear deletes every stored row and
      reports how many there were: the live entries and the expired rows. */
  lemma ClearEmptiesGood(st: CacheState, nonce: Option<string>, verifyNonce: string -> bool, canManage: bool)
    requires Good(st)
    ensures var (out, st') := ClearCache(st, nonce, verifyNonce, canManage);
      out.Cleared? ==> st'.store == map[] && st'.expired == {} && out.removed == |st.store| + |st.expired| && Good(st')
  {
    var (out, st') := ClearCache(st, nonce, verifyNonce, canManage);
    if out.Cleared? {
      assert st'.store.Keys == {};
      StoredCount(st);
    }
  }

  /** A search misses and stores its results, the hour passes, and an
      administrator clears: the expired row is still deleted and counted. */
  lemma ExpiredRowStillCounted(key: string, e: Entry, verifyNonce: string -> bool, nonce: string)
    requires verifyNonce(nonce)
    ensures var st0 := CacheState([], map[], {});
      var (st1, look) := LookUp(st0, key);
      var st2 := Expire(RunPending(st1, look.pending, true, e), key);
      var (out, st3) := ClearCache(st2, Some(nonce), verifyNonce, true);
      && look.Miss? && key !in st2.store && LookUp(st2, key).1.Miss?
      && out == Cleared(1) && st3 == st0
  {
    var st0 := CacheState([], map[], {});
    var (st1, look) := LookUp(st0, key);
    assert st1.registry == [key];
    var st2 := Expire(RunPending(st1, look.pending, true, e), key);
    assert st2.expired == {key} && st2.store == map[];
    var (out, st3) := ClearCache(st2, Some(nonce), verifyNonce, true);
    assert DeleteAll([key][1..], map[], {}) == (0, map[], {});
  }

  /** Expiry does not change what a permitted clear reports; only a read of
      the expired name or the daily cleanup does. */
  lemma ExpireKeepsClearCount(st: CacheState, key: string, nonce: Option<string>, verifyNonce: string -> bool, canManage: bool)
    requires Good(st)
    ensures ClearCache(Expire(st, key), nonce, verifyNonce, canManage).0 == ClearCache(st, nonce, verifyNonce, canManage).0
  {
    var st' := Expire(st, key);
    ExpireKeepsGood(st, key);
    ClearEmptiesGood(st, nonce, verifyNonce, canManage);
    ClearEmptiesGood(st', nonce, verifyNonce, canManage);
    if key in st.store {
      assert st'.store.Keys == st.store.Keys - {key};
      RemoveOne(st.store.Keys, key);
      assert st'.expired == st.expired + {key};
      RemoveOne(st'.expired, key);
      assert st'.expired - {key} == st.expired;
    }
  }

  /** Clearing a second time finds nothing more to remove, from any state:
      the first clear empties the registry, so the second deletes nothing. */
  lemma ClearTwice(st: CacheState, nonce: Option<string>, verifyNonce: string -> bool)
    ensures var (out1, st1) := ClearCache(st, nonce, verifyNonce, true);
      var (out2, st2) := ClearCache(st1, nonce, verifyNonce, true);
      out1.Cleared? ==> out2 == Cleared(0) && st2 == st1
  {
    var (out1, st1) := ClearCache(st, nonce, verifyNonce, true);
    if out1.Cleared? {
      assert st1.registry == [];
      assert DeleteAll([], st1.store, st1.expired) == (0, st1.store, st1.expired);
    }
  }

  /** A search that misses, then a clear, then the search's callback: the
      entry is written after the registry was emptied, so it is live but no
      longer listed, and the next clear does not remove it. It stays until it
      expires. */
  lemma ClearRacesPendingWrite(key: string, e: Entry, verifyNonce: string -> bool, nonce: string)
    requires verifyNonce(nonce)
    ensures var st0 := CacheState([], map[], {});
      var (st1, look) := LookUp(st0, key);
      var st2 := ClearCache(st1, Some(nonce), verifyNonce, true).1;
      var st3 := RunPending(st2, look.pending, true, e);
      var (out4, st4) := ClearCache(st3, Some(nonce), verifyNonce, true);
      && look.Miss? && Good(st2) && !Good(st3)
      && out4 == Cleared(0) && key in st4.store
  {
    var st0 := CacheState([], map[], {});
    var (st1, look) := LookUp(st0, key);
    var st2 := ClearCache(st1, Some(nonce), verifyNonce, true).1;
    assert st2.registry == [];
    var st3 := RunPending(st2, look.pending, true, e);
    assert key in st3.store && key !in st3.registry;
    var (out4, st4) := ClearCache(st3, Some(nonce), verifyNonce, true);
    assert DeleteAll([], st3.store, st3.expired) == (0, st3.store, st3.expired);
  }
}
