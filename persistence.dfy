/**
 * Persistence: the per-page storage key, the two record shapes kept in
 * `localStorage`, and what loading adopts from them. `localStorage` is a map
 * from key to the parsed record; parsing and serialising JSON are not modelled.
 */
module Persistence {
  import opened Wrappers
  import opened JsString
  import opened Highlighter
  import opened Translations

  const GlobalStorageKey := "gptExpressionPairs"
  const UrlStoragePrefix := "gpt-url-data-"

  /** The parts of `window.location` the key depends on; `v` is the `v` search parameter. */
  datatype Url = Url(hostname: string, pathname: string, v: Option<string>)

  /**
   * A stored value as `JSON.parse` reads it: a bare array of pairs (global
   * form), the per-page object, or anything else, including text that does
   * not parse.
   */
  datatype StoredValue =
    | Bare(pairs: seq<Pair>)
    | Structured(pairs: seq<Pair>, translations: seq<Translation>)
    | Malformed

  type Store = map<string, StoredValue>

  /** `.replace(/[/.]/g, '-')`. */
  function ReplaceSlashDot(s: string): (r: string)
    ensures |r| == |s| && '/' !in r && '.' !in r
    ensures forall i :: 0 <= i < |s| ==> r[i] == (if s[i] == '/' || s[i] == '.' then '-' else s[i])
  {
    seq(|s|, i requires 0 <= i < |s| => if s[i] == '/' || s[i] == '.' then '-' else s[i])
  }

  /** The YouTube watch-page branch applies: a youtube.com host, a `/watch` path and a non-empty `v`. */
  predicate IsVideoPage(url: Url) {
    Contains(url.hostname, "youtube.com") && Contains(url.pathname, "/watch") && Truthy(url.v)
  }

  /** No prefixed key is the global key, so the two scopes never share a record. */
  lemma PrefixedIsNotGlobal(key: string)
    requires StartsWith(key, UrlStoragePrefix)
    ensures key != GlobalStorageKey
  {
    assert key[3] == UrlStoragePrefix[3];
  }

  /** `getStorageKeyForCurrentUrl`. */
  function StorageKey(url: Url): (key: string)
    ensures StartsWith(key, UrlStoragePrefix) && key != GlobalStorageKey
    ensures IsVideoPage(url) ==> key == UrlStoragePrefix + "youtube-" + url.v.value
    ensures !IsVideoPage(url) ==>
      key == UrlStoragePrefix + ReplaceSlashDot(url.hostname + url.pathname) && '/' !in key && '.' !in key
  {
    if Contains(url.hostname, "youtube.com") && Contains(url.pathname, "/watch") && Truthy(url.v) then
      var key := UrlStoragePrefix + "youtube-" + url.v.value;
      PrefixedIsNotGlobal(key);
      key
    else
      var whole := UrlStoragePrefix + url.hostname + url.pathname;
      assert ReplaceSlashDot(whole) == UrlStoragePrefix + ReplaceSlashDot(url.hostname + url.pathname) by {
        assert whole == UrlStoragePrefix + (url.hostname + url.pathname);
        assert forall i :: 0 <= i < |UrlStoragePrefix| ==> UrlStoragePrefix[i] != '/' && UrlStoragePrefix[i] != '.';
      }
      var key := ReplaceSlashDot(whole);
      assert key[..|UrlStoragePrefix|] == UrlStoragePrefix;
      PrefixedIsNotGlobal(key);
      key
  }

  /** What `saveState` writes under `key`: the per-page object under a prefixed key, the bare pairs otherwise. */
  function Record(key: string, pairs: seq<Pair>, es: Entries): StoredValue {
    if StartsWith(key, UrlStoragePrefix) then Structured(pairs, Values(es)) else Bare(pairs)
  }

  /** Which record `loadAndRestoreState` adopts. */
  datatype Source = PageRecord | GlobalRecord | NoRecord

  function RestoreSource(store: Store, urlKey: string): Source {
    if urlKey in store && store[urlKey].Structured? then PageRecord
    else if GlobalStorageKey in store && store[GlobalStorageKey].Bare? then GlobalRecord
    else NoRecord
  }

  /** The session state that loading reads and writes. */
  datatype Loaded = Loaded(pairs: seq<Pair>, translations: Entries, key: string)

  /**
   * `loadAndRestoreState` on the state (`pairs`, `es`, `key`): a per-page
   * object under the URL key is adopted and its records set into the map
   * under their expressions as stored (line 152); failing that, a bare array
   * under the global key is adopted; failing both, nothing changes.
   */
  function Restore(store: Store, urlKey: string, pairs: seq<Pair>, es: Entries, key: string): Loaded {
    match RestoreSource(store, urlKey)
    case PageRecord => Loaded(store[urlKey].pairs, SetAll(es, store[urlKey].translations), urlKey)
    case GlobalRecord => Loaded(store[GlobalStorageKey].pairs, es, GlobalStorageKey)
    case NoRecord => Loaded(pairs, es, key)
  }

  /** `Restore` with line 152 corrected: the records are re-injected, under their trimmed truthy expressions. */
  function RestoreIntended(store: Store, urlKey: string, pairs: seq<Pair>, es: Entries, key: string): Loaded {
    match RestoreSource(store, urlKey)
    case PageRecord => Loaded(store[urlKey].pairs, UpsertAll(es, store[urlKey].translations), urlKey)
    case GlobalRecord => Loaded(store[GlobalStorageKey].pairs, es, GlobalStorageKey)
    case NoRecord => Loaded(pairs, es, key)
  }

  /**
   * Round trip under a page key: what `saveState` writes there, a fresh load
   * from the same URL reads back, pairs in order and the translation map entry
   * for entry, provided every record is stored under its own expression as
   * written (which holds when every injected expression was already trimmed).
   */
  lemma SaveRestoreRoundTrip(store: Store, url: Url, pairs: seq<Pair>, es: Entries, pairs0: seq<Pair>, key0: string)
    requires DistinctKeys(es) && SelfKeyed(es)
    ensures var urlKey := StorageKey(url);
      Restore(store[urlKey := Record(urlKey, pairs, es)], urlKey, pairs0, [], key0) == Loaded(pairs, es, urlKey)
  {
    SetAllValuesRestores(es);
  }

  /** The same round trip for the corrected restore holds for every map the injector builds. */
  lemma IntendedSaveRestoreRoundTrip(store: Store, url: Url, pairs: seq<Pair>, es: Entries, pairs0: seq<Pair>, key0: string)
    requires WellKeyed(es)
    ensures var urlKey := StorageKey(url);
      RestoreIntended(store[urlKey := Record(urlKey, pairs, es)], urlKey, pairs0, [], key0) == Loaded(pairs, es, urlKey)
  {
    UpsertValuesRestores(es);
  }

  /**
   * Round trip under the global key: with no per-page object for the URL,
   * the pairs saved globally are read back and the key becomes the global one.
   */
  lemma GlobalSaveRestoreRoundTrip(store: Store, url: Url, pairs: seq<Pair>, es: Entries, pairs0: seq<Pair>, es0: Entries, key0: string)
    requires StorageKey(url) !in store || !store[StorageKey(url)].Structured?
    ensures var saved := store[GlobalStorageKey := Record(GlobalStorageKey, pairs, es)];
      Restore(saved, StorageKey(url), pairs0, es0, key0) == Loaded(pairs, es0, GlobalStorageKey)
  {
    assert !StartsWith(GlobalStorageKey, UrlStoragePrefix) by {
      assert GlobalStorageKey[..|UrlStoragePrefix|][3] != UrlStoragePrefix[3];
    }
  }

  /**
   * After a reset under the page key, loading that page finds no per-page
   * object and falls back to the global record, if any.
   */
  lemma ResetRestoreFallsBack(store: Store, url: Url, pairs: seq<Pair>, es: Entries, key: string)
    ensures var l := Restore(store - {StorageKey(url)}, StorageKey(url), pairs, es, key);
      if GlobalStorageKey in store && store[GlobalStorageKey].Bare?
      then l == Loaded(store[GlobalStorageKey].pairs, es, GlobalStorageKey)
      else l == Loaded(pairs, es, key)
  {
  }

  /**
   * The failure of line 152: a record injected as " brown" is found under
   * "brown"; after saving and reloading the page it is only under " brown",
   * while the corrected restore finds it under "brown" again.
   */
  lemma AsWrittenReloadLosesTrimmedKey(store: Store, url: Url, pairs: seq<Pair>)
    ensures var item := Translation(" brown", Some("color"), None, None, None, None, None);
      var injected := UpsertAll([], [item]);
      var key := StorageKey(url);
      var saved := store[key := Record(key, pairs, injected)];
      && Get(injected, "brown") == Some(item)
      && Get(Restore(saved, key, [], [], GlobalStorageKey).translations, "brown") == None
      && Get(RestoreIntended(saved, key, [], [], GlobalStorageKey).translations, "brown") == Some(item)
  {
    var item := Translation(" brown", Some("color"), None, None, None, None, None);
    assert Trim(item.expression) == "brown" by {
      assert TrimStart(item.expression) == "brown";
      assert TrimEnd("brown") == "brown";
    }
    assert [item][..0] == [];
    var injected := UpsertAll([], [item]);
    assert injected == UpsertOne(UpsertAll([], []), item);
    assert UpsertOne([], item) == Set([], "brown", item);
    assert injected == [("brown", item)];
    assert Values(injected) == [item];
    var key := StorageKey(url);
    var saved := store[key := Record(key, pairs, injected)];
    assert saved[key] == Structured(pairs, [item]);
    var reloaded := SetAll([], [item]);
    assert reloaded == Set(SetAll([], []), " brown", item);
    assert reloaded == [(" brown", item)];
    assert Restore(saved, key, [], [], GlobalStorageKey).translations == reloaded;
    UpsertAllWellKeyed([], [item]);
    IntendedSaveRestoreRoundTrip(store, url, pairs, injected, [], GlobalStorageKey);
  }
}
