/**
 * The translation records and `translationData`, a JavaScript `Map` from
 * expression text to record. A `Map` remembers insertion order (the order in
 * which `values()` lists the records when they are saved), so it is modelled
 * as a sequence of (key, record) entries: `set` on a present key replaces that
 * entry in place, on a new key it appends.
 */
module Translations {
  import opened Wrappers
  import opened JsString

  /**
   * One injected record. Only `expression` is interpreted; "" stands for a
   * missing or empty expression, both falsy in JavaScript.
   */
  datatype Translation = Translation(
    expression: string,
    definition: Option<string>,
    roTranslation: Option<string>,
    ukPron: Option<string>,
    usPron: Option<string>,
    enPhoneticRo: Option<string>,
    synonyms: Option<seq<string>>)

  type Entries = seq<(string, Translation)>

  /** `Array.from(map.values())`: the records in insertion order. */
  function Values(es: Entries): (vs: seq<Translation>)
    ensures |vs| == |es| && forall i :: 0 <= i < |es| ==> vs[i] == es[i].1
  {
    seq(|es|, i requires 0 <= i < |es| => es[i].1)
  }

  predicate DistinctKeys(es: Entries) {
    forall i, j :: 0 <= i < j < |es| ==> es[i].0 != es[j].0
  }

  /** `map.get(k)`: the record of the entry whose key is `k`, if there is one. */
  function Get(es: Entries, k: string): (r: Option<Translation>)
    ensures r.Some? ==> (k, r.value) in es
    ensures r.None? <==> forall i :: 0 <= i < |es| ==> es[i].0 != k
  {
    if es == [] then None
    else if es[0].0 == k then Some(es[0].1)
    else
      var r := Get(es[1..], k);
      assert forall i :: 1 <= i < |es| ==> es[i] == es[1..][i - 1];
      r
  }

  /**
   * `r` is `es` after `map.set(k, v)`: `k` maps to `v` and every other key to
   * what it did; a present key keeps its position, a new one goes last.
   */
  ghost predicate SetsKey(es: Entries, k: string, v: Translation, r: Entries) {
    && Get(r, k) == Some(v)
    && (forall k' :: k' != k ==> Get(r, k') == Get(es, k'))
    && (Get(es, k).None? ==> r == es + [(k, v)])
    && (Get(es, k).Some? ==>
         |r| == |es| && forall i :: 0 <= i < |es| ==> r[i].0 == es[i].0 && (r[i] == es[i] || r[i] == (k, v)))
  }

  /** `map.set(k, v)`. */
  function Set(es: Entries, k: string, v: Translation): (r: Entries)
    ensures SetsKey(es, k, v, r)
  {
    if es == [] then [(k, v)]
    else
      assert es == [es[0]] + es[1..];
      if es[0].0 == k then
        SetHead(es[0], es[1..], v);
        [(k, v)] + es[1..]
      else
        var rest := Set(es[1..], k, v);
        SetCons(es[0], es[1..], k, v, rest);
        [es[0]] + rest
  }

  /** Setting the key of the first entry replaces that entry. */
  lemma SetHead(e: (string, Translation), es: Entries, v: Translation)
    ensures SetsKey([e] + es, e.0, v, [(e.0, v)] + es)
  {
    GetCons(e, es);
    GetCons((e.0, v), es);
    var r := [(e.0, v)] + es;
    assert forall i :: 1 <= i < |r| ==> r[i] == ([e] + es)[i];
  }

  /** Setting a key other than the first entry's leaves the first entry in front. */
  lemma SetCons(e: (string, Translation), es: Entries, k: string, v: Translation, rest: Entries)
    requires e.0 != k && SetsKey(es, k, v, rest)
    ensures SetsKey([e] + es, k, v, [e] + rest)
  {
    GetCons(e, es);
    GetCons(e, rest);
    if Get(es, k).Some? {
      var r := [e] + rest;
      assert forall i :: 1 <= i < |r| ==> r[i] == rest[i - 1] && ([e] + es)[i] == es[i - 1];
    } else {
      assert [e] + rest == [e] + es + [(k, v)];
    }
  }

  /** Looking up in an association list with a head entry. */
  lemma GetCons(e: (string, Translation), es: Entries)
    ensures forall k :: Get([e] + es, k) == if e.0 == k then Some(e.1) else Get(es, k)
  {
    assert ([e] + es)[1..] == es;
  }

  /** `item` is stored under `k` by an injection: its expression is truthy and trims to `k`. */
  predicate Keyed(item: Translation, k: string) {
    item.expression != "" && Trim(item.expression) == k
  }

  /** `if (item.expression) translationData.set(item.expression.trim(), item)`. */
  function UpsertOne(es: Entries, item: Translation): Entries {
    if item.expression != "" then Set(es, Trim(item.expression), item) else es
  }

  /** `UpsertOne` for each item, first to last. */
  function UpsertAll(es: Entries, items: seq<Translation>): Entries {
    if items == [] then es
    else UpsertOne(UpsertAll(es, items[..|items| - 1]), items[|items| - 1])
  }

  /** Appending one item to the injected list is one more `UpsertOne`. */
  lemma UpsertAllSnoc(es: Entries, items: seq<Translation>, i: nat)
    requires i < |items|
    ensures UpsertAll(es, items[..i + 1]) == UpsertOne(UpsertAll(es, items[..i]), items[i])
  {
    assert items[..i + 1][..i] == items[..i];
  }

  /** Restoring a saved page: `set(item.expression, item)` for each record, first to last, under the untrimmed expression. */
  function SetAll(es: Entries, items: seq<Translation>): Entries {
    if items == [] then es
    else
      var item := items[|items| - 1];
      Set(SetAll(es, items[..|items| - 1]), item.expression, item)
  }

  /** Appending one record to the restored list is one more `Set`. */
  lemma SetAllSnoc(es: Entries, items: seq<Translation>, i: nat)
    requires i < |items|
    ensures SetAll(es, items[..i + 1]) == Set(SetAll(es, items[..i]), items[i].expression, items[i])
  {
    assert items[..i + 1][..i] == items[..i];
  }

  /** Every record is stored under its own expression, exactly as written. */
  predicate SelfKeyed(es: Entries) {
    forall i :: 0 <= i < |es| ==> es[i].1.expression == es[i].0
  }

  /** A `Map` never holds a key twice: `set` keeps the keys distinct. */
  lemma SetKeepsDistinct(es: Entries, k: string, v: Translation)
    requires DistinctKeys(es)
    ensures DistinctKeys(Set(es, k, v))
  {
    var r := Set(es, k, v);
    if Get(es, k).None? {
      forall i, j | 0 <= i < j < |r| ensures r[i].0 != r[j].0 {
        assert r[i] == es[i];
        if j < |es| {
          assert r[j] == es[j];
        }
      }
    } else {
      forall i, j | 0 <= i < j < |r| ensures r[i].0 != r[j].0 {
        assert r[i].0 == es[i].0 && r[j].0 == es[j].0;
      }
    }
  }

  lemma {:induction false} UpsertAllDistinct(es: Entries, items: seq<Translation>)
    requires DistinctKeys(es)
    ensures DistinctKeys(UpsertAll(es, items))
  {
    if items != [] {
      var n := |items|;
      var prev := UpsertAll(es, items[..n - 1]);
      UpsertAllDistinct(es, items[..n - 1]);
      var item := items[n - 1];
      assert UpsertAll(es, items) == UpsertOne(prev, item);
      if item.expression != "" {
        SetKeepsDistinct(prev, Trim(item.expression), item);
      }
    }
  }

  lemma {:induction false} SetAllDistinct(es: Entries, items: seq<Translation>)
    requires DistinctKeys(es)
    ensures DistinctKeys(SetAll(es, items))
  {
    if items != [] {
      var n := |items|;
      SetAllDistinct(es, items[..n - 1]);
      SetKeepsDistinct(SetAll(es, items[..n - 1]), items[n - 1].expression, items[n - 1]);
    }
  }

  /** One `set` of a record under its own expression keeps every record under its own expression. */
  lemma SetKeepsSelfKeyed(es: Entries, item: Translation)
    requires SelfKeyed(es)
    ensures SelfKeyed(Set(es, item.expression, item))
  {
    var r := Set(es, item.expression, item);
    if Get(es, item.expression).None? {
      forall i | 0 <= i < |r| ensures r[i].1.expression == r[i].0 {
        if i < |es| {
          assert r[i] == es[i];
        }
      }
    } else {
      forall i | 0 <= i < |r| ensures r[i].1.expression == r[i].0 {
        if r[i] != es[i] {
          assert r[i] == (item.expression, item);
        }
      }
    }
  }

  /** Injecting records whose truthy expressions are already trimmed keeps every record under its own expression. */
  lemma {:induction false} UpsertAllSelfKeyed(es: Entries, items: seq<Translation>)
    requires SelfKeyed(es)
    requires forall j :: 0 <= j < |items| && items[j].expression != "" ==> Trim(items[j].expression) == items[j].expression
    ensures SelfKeyed(UpsertAll(es, items))
  {
    if items != [] {
      var n := |items|;
      var init := items[..n - 1];
      assert forall j :: 0 <= j < n - 1 ==> init[j] == items[j];
      var prev := UpsertAll(es, init);
      UpsertAllSelfKeyed(es, init);
      var item := items[n - 1];
      assert UpsertAll(es, items) == UpsertOne(prev, item);
      if item.expression != "" {
        SetKeepsSelfKeyed(prev, item);
      }
    }
  }

  /**
   * Restoring the saved records into an empty map rebuilds the same map,
   * entry for entry and in order, when every record is stored under its own
   * expression and the keys are distinct.
   */
  lemma {:induction false} SetAllValuesRestores(es: Entries)
    requires DistinctKeys(es) && SelfKeyed(es)
    ensures SetAll([], Values(es)) == es
  {
    if es != [] {
      LastSplit(es);
      SetAllValuesRestores(es[..|es| - 1]);
      SetAllValuesStep(es);
    }
  }

  /** The inductive step of `SetAllValuesRestores`: one more entry, restored after the others. */
  lemma SetAllValuesStep(es: Entries)
    requires es != [] && DistinctKeys(es) && SelfKeyed(es)
    requires SetAll([], Values(es[..|es| - 1])) == es[..|es| - 1]
    ensures SetAll([], Values(es)) == es
  {
    var last := es[|es| - 1];
    LastSplit(es);
    SetAllValuesLast(es);
    assert (last.1.expression, last.1) == last;
  }

  /** Restoring the records of `es` appends the last one when its expression is a key new to the others. */
  lemma SetAllValuesLast(es: Entries)
    requires es != [] && SetAll([], Values(es[..|es| - 1])) == es[..|es| - 1]
    requires forall i :: 0 <= i < |es| - 1 ==> es[i].0 != es[|es| - 1].1.expression
    ensures SetAll([], Values(es)) == es[..|es| - 1] + [(es[|es| - 1].1.expression, es[|es| - 1].1)]
  {
    ValuesSplit(es);
    SetAllAppends(Values(es), es[..|es| - 1]);
  }

  /** The records of `es` are those of its prefix followed by its last record, and the prefix keeps the first keys. */
  lemma ValuesSplit(es: Entries)
    requires es != []
    ensures Values(es)[..|es| - 1] == Values(es[..|es| - 1])
    ensures Values(es)[|es| - 1] == es[|es| - 1].1
    ensures forall i :: 0 <= i < |es| - 1 ==> es[..|es| - 1][i].0 == es[i].0
  {
  }

  /** Splitting off the last entry keeps both halves distinct and self-keyed, and the last key is new to the rest. */
  lemma LastSplit(es: Entries)
    requires es != [] && DistinctKeys(es) && SelfKeyed(es)
    ensures var n := |es|;
      && es[..n - 1] + [es[n - 1]] == es
      && DistinctKeys(es[..n - 1]) && SelfKeyed(es[..n - 1])
      && es[n - 1].1.expression == es[n - 1].0
      && forall i :: 0 <= i < n - 1 ==> es[i].0 != es[n - 1].0
  {
    var init := es[..|es| - 1];
    SnocSplit(es);
    assert forall i :: 0 <= i < |init| ==> init[i] == es[i];
  }

  /** A last restored record whose expression is a new key is appended after the others. */
  lemma SetAllAppends(vs: seq<Translation>, init: Entries)
    requires vs != [] && SetAll([], vs[..|vs| - 1]) == init
    requires forall i :: 0 <= i < |init| ==> init[i].0 != vs[|vs| - 1].expression
    ensures SetAll([], vs) == init + [(vs[|vs| - 1].expression, vs[|vs| - 1])]
  {
    AppendNewKey(init, vs[|vs| - 1].expression, vs[|vs| - 1]);
  }

  /** `set` under a key that is not present appends the entry. */
  lemma AppendNewKey(es: Entries, k: string, v: Translation)
    requires forall i :: 0 <= i < |es| ==> es[i].0 != k
    ensures Set(es, k, v) == es + [(k, v)]
  {
  }

  /** The invariant the injector keeps: distinct keys, and every record is stored under its trimmed expression. */
  ghost predicate WellKeyed(es: Entries) {
    DistinctKeys(es) && forall i :: 0 <= i < |es| ==> Keyed(es[i].1, es[i].0)
  }

  /** One `set` of a truthy record under its trimmed expression keeps the map well keyed. */
  lemma SetKeepsWellKeyed(es: Entries, item: Translation)
    requires WellKeyed(es) && item.expression != ""
    ensures WellKeyed(Set(es, Trim(item.expression), item))
  {
    var k := Trim(item.expression);
    var r := Set(es, k, item);
    if Get(es, k).None? {
      AppendKeepsWellKeyed(es, k, item);
    } else {
      ReplaceKeepsWellKeyed(es, r, k, item);
    }
  }

  /** Appending an entry under a new key, stored under its own key. */
  lemma AppendKeepsWellKeyed(es: Entries, k: string, item: Translation)
    requires WellKeyed(es) && Keyed(item, k)
    requires forall i :: 0 <= i < |es| ==> es[i].0 != k
    ensures WellKeyed(es + [(k, item)])
  {
    var r := es + [(k, item)];
    forall i, j | 0 <= i < j < |r| ensures r[i].0 != r[j].0 {
      assert r[i] == es[i];
      if j < |es| {
        assert r[j] == es[j];
      }
    }
    forall i | 0 <= i < |r| ensures Keyed(r[i].1, r[i].0) {
      if i < |es| {
        assert r[i] == es[i];
      }
    }
  }

  /** Overwriting entries in place, key for key, with an entry stored under its own key. */
  lemma ReplaceKeepsWellKeyed(es: Entries, r: Entries, k: string, item: Translation)
    requires WellKeyed(es) && Keyed(item, k) && |r| == |es|
    requires forall i :: 0 <= i < |es| ==> r[i].0 == es[i].0 && (r[i] == es[i] || r[i] == (k, item))
    ensures WellKeyed(r)
  {
    forall i, j | 0 <= i < j < |r| ensures r[i].0 != r[j].0 {
      assert r[i].0 == es[i].0 && r[j].0 == es[j].0;
    }
    forall i | 0 <= i < |r| ensures Keyed(r[i].1, r[i].0) {
      if r[i] != es[i] {
        assert r[i] == (k, item);
      }
    }
  }

  lemma {:induction false} UpsertAllWellKeyed(es: Entries, items: seq<Translation>)
    requires WellKeyed(es)
    ensures WellKeyed(UpsertAll(es, items))
  {
    if items != [] {
      var n := |items|;
      var prev := UpsertAll(es, items[..n - 1]);
      UpsertAllWellKeyed(es, items[..n - 1]);
      var item := items[n - 1];
      assert UpsertAll(es, items) == UpsertOne(prev, item);
      if item.expression != "" {
        SetKeepsWellKeyed(prev, item);
      }
    }
  }

  /**
   * Items not keyed `k` leave the entry for `k` as it was; in particular an
   * item with a falsy expression is skipped.
   */
  lemma {:induction false} UpsertAllSkips(es: Entries, items: seq<Translation>, k: string)
    requires forall j :: 0 <= j < |items| ==> !Keyed(items[j], k)
    ensures Get(UpsertAll(es, items), k) == Get(es, k)
  {
    if items != [] {
      var n := |items|;
      var init := items[..n - 1];
      assert forall j :: 0 <= j < n - 1 ==> init[j] == items[j];
      UpsertAllSkips(es, init, k);
      var prev := UpsertAll(es, init);
      assert UpsertAll(es, items) == UpsertOne(prev, items[n - 1]);
    }
  }

  /** Later items win: the record stored under `k` is the last item keyed `k`. */
  lemma {:induction false} UpsertAllLatestWins(es: Entries, items: seq<Translation>, k: string, j: nat)
    requires j < |items| && Keyed(items[j], k)
    requires forall j' :: j < j' < |items| ==> !Keyed(items[j'], k)
    ensures Get(UpsertAll(es, items), k) == Some(items[j])
  {
    var n := |items|;
    var init := items[..n - 1];
    var prev := UpsertAll(es, init);
    assert UpsertAll(es, items) == UpsertOne(prev, items[n - 1]);
    UpsertOneGet(prev, items[n - 1], k);
    if j < n - 1 {
      assert forall j' :: j < j' < n - 1 ==> init[j'] == items[j'];
      UpsertAllLatestWins(es, init, k, j);
    }
  }

  /** Looking `k` up after one upsert: the item when it is keyed `k`, the old entry otherwise. */
  lemma UpsertOneGet(es: Entries, item: Translation, k: string)
    ensures Get(UpsertOne(es, item), k) == if Keyed(item, k) then Some(item) else Get(es, k)
  {
  }

  /** Re-injecting the saved records into an empty map rebuilds the same map, entry for entry and in order. */
  lemma {:induction false} UpsertValuesRestores(es: Entries)
    requires WellKeyed(es)
    ensures UpsertAll([], Values(es)) == es
  {
    if es != [] {
      var init := es[..|es| - 1];
      assert WellKeyed(init) by {
        assert forall i :: 0 <= i < |init| ==> init[i] == es[i];
      }
      UpsertValuesRestores(init);
      UpsertValuesStep(es);
    }
  }

  /** The inductive step of `UpsertValuesRestores`: one more entry, re-injected after the others. */
  lemma UpsertValuesStep(es: Entries)
    requires es != [] && WellKeyed(es)
    requires UpsertAll([], Values(es[..|es| - 1])) == es[..|es| - 1]
    ensures UpsertAll([], Values(es)) == es
  {
    var last := es[|es| - 1];
    SnocSplit(es);
    UpsertValuesLast(es);
    assert (last.0, last.1) == last;
  }

  /** Re-injecting the records of `es` appends the last one when it is keyed by a key new to the others. */
  lemma UpsertValuesLast(es: Entries)
    requires es != [] && UpsertAll([], Values(es[..|es| - 1])) == es[..|es| - 1]
    requires Keyed(es[|es| - 1].1, es[|es| - 1].0)
    requires forall i :: 0 <= i < |es| - 1 ==> es[i].0 != es[|es| - 1].0
    ensures UpsertAll([], Values(es)) == es[..|es| - 1] + [(es[|es| - 1].0, es[|es| - 1].1)]
  {
    ValuesSplit(es);
    UpsertAppends(Values(es), es[..|es| - 1], es[|es| - 1].0);
  }

  /** A last injected record keyed by a new key `k` is appended after the others. */
  lemma UpsertAppends(vs: seq<Translation>, init: Entries, k: string)
    requires vs != [] && UpsertAll([], vs[..|vs| - 1]) == init && Keyed(vs[|vs| - 1], k)
    requires forall i :: 0 <= i < |init| ==> init[i].0 != k
    ensures UpsertAll([], vs) == init + [(k, vs[|vs| - 1])]
  {
    AppendNewKey(init, k, vs[|vs| - 1]);
  }

  /** A non-empty list is its prefix followed by its last element. */
  lemma SnocSplit(es: Entries)
    requires es != []
    ensures es[..|es| - 1] + [es[|es| - 1]] == es
  {
  }
}
