/**
 * The injector's session: the module-level state of the user script, the
 * keyboard handler's three shortcuts, rendering, saving, loading and the
 * global injection entry point. `localStorage` and `CSS.highlights` are
 * fields of the session; the page's text nodes, the selection and the pressed
 * key are parameters of the handlers.
 */
module Injector {
  import opened Wrappers
  import opened JsString
  import opened Locator
  import opened Highlighter
  import opened Translations
  import opened Persistence

  /** The `key` of a `keydown` event, as far as the handler tells keys apart. */
  datatype Key = ArrowUp | ArrowDown | OtherKey

  datatype Command = SetContextCommand | CommitCommand | ResetCommand | NoCommand

  /**
   * The shortcut a key press selects; `ctrl` is `ctrlKey || metaKey`. The
   * three tests of the handler are independent `if`s, but no press passes two.
   */
  function Shortcut(key: Key, ctrl: bool, shift: bool): Command {
    if ctrl && !shift && key == ArrowUp then SetContextCommand
    else if ctrl && shift && key == ArrowUp then CommitCommand
    else if ctrl && !shift && key == ArrowDown then ResetCommand
    else NoCommand
  }

  class Session {
    var highlightPairs: seq<Pair>
    var lastContextText: Option<string>
    var translationData: Entries
    var activeExpressionRanges: seq<ActiveSpan>
    var currentStorageKey: string
    /** `CSS.highlights`, by highlight name. */
    var highlights: map<string, seq<Range>>
    /** `localStorage`. */
    var store: Store
    /** The pairs listed by the last prompt sent to the clipboard, if any. */
    var clipboardPrompt: Option<seq<Pair>>

    /** `translationData` is a `Map`: no key occurs twice. */
    ghost predicate Valid()
      reads this
    {
      DistinctKeys(translationData)
    }

    /** The state when the script starts on a page whose storage holds `store0`. */
    constructor (store0: Store)
      ensures Valid()
      ensures highlightPairs == [] && lastContextText == None && translationData == []
      ensures activeExpressionRanges == [] && currentStorageKey == GlobalStorageKey
      ensures highlights == map[] && store == store0 && clipboardPrompt == None
    {
      highlightPairs := [];
      lastContextText := None;
      translationData := [];
      activeExpressionRanges := [];
      currentStorageKey := GlobalStorageKey;
      highlights := map[];
      store := store0;
      clipboardPrompt := None;
    }

    /**
     * `renderAllHighlights`: both layers and the active spans are rebuilt from
     * the pairs and the pending context alone, so rendering twice changes nothing.
     */
    method Render(doc: seq<string>)
      modifies this`highlights, this`activeExpressionRanges
      ensures highlights == Highlights(doc, highlightPairs, lastContextText)
      ensures activeExpressionRanges == ActiveSpans(doc, highlightPairs)
      ensures highlightPairs == [] && !Truthy(lastContextText) ==> highlights == map[] && activeExpressionRanges == []
    {
      highlights := map[];
      activeExpressionRanges := [];
      if |highlightPairs| == 0 && !Truthy(lastContextText) {
        return;
      }
      var contextHighlight: seq<Range> := [];
      var expressionHighlight: seq<Range> := [];
      var i := 0;
      while i < |highlightPairs|
        invariant 0 <= i <= |highlightPairs|
        invariant contextHighlight == ContextRanges(doc, highlightPairs[..i])
        invariant expressionHighlight == ExpressionRanges(doc, highlightPairs[..i])
        invariant activeExpressionRanges == ActiveSpans(doc, highlightPairs[..i])
      {
        var pair := highlightPairs[i];
        RenderStep(doc, highlightPairs, i);
        var contextRanges := FindTextRanges(doc, pair.context);
        contextHighlight := contextHighlight + contextRanges;
        var exprRanges := FindTextRanges(doc, pair.expression);
        expressionHighlight := expressionHighlight + exprRanges;
        activeExpressionRanges := activeExpressionRanges + Tag(exprRanges, pair.expression);
        i := i + 1;
      }
      assert highlightPairs[..i] == highlightPairs;
      if Truthy(lastContextText) {
        var pendingRanges := FindTextRanges(doc, lastContextText.value);
        contextHighlight := contextHighlight + pendingRanges;
      } else {
        assert contextHighlight + [] == contextHighlight;
      }
      assert contextHighlight == ContextLayer(doc, highlightPairs, lastContextText);
      highlights := map[ContextHighlightName := contextHighlight, ExpressionHighlightName := expressionHighlight];
    }

    /**
     * `saveState`: writes the record for the current key; a failing write
     * (`writeOk` false, e.g. quota exceeded) is caught and leaves the store as it was.
     */
    method Save(writeOk: bool) returns (saved: bool)
      modifies this`store
      ensures saved == writeOk
      ensures store == if writeOk then old(store)[currentStorageKey := Record(currentStorageKey, highlightPairs, translationData)]
                       else old(store)
    {
      var dataToSave: StoredValue;
      if StartsWith(currentStorageKey, UrlStoragePrefix) {
        dataToSave := Structured(highlightPairs, Values(translationData));
      } else {
        dataToSave := Bare(highlightPairs);
      }
      if writeOk {
        store := store[currentStorageKey := dataToSave];
      }
      saved := writeOk;
    }

    /**
     * `translationData.set(item.expression.trim(), item)` for each item with a
     * truthy expression, in order; a map with every record under its trimmed
     * expression stays so.
     */
    method UpsertTranslations(items: seq<Translation>)
      requires Valid()
      modifies this`translationData
      ensures Valid()
      ensures translationData == UpsertAll(old(translationData), items)
      ensures WellKeyed(old(translationData)) ==> WellKeyed(translationData)
    {
      var i := 0;
      while i < |items|
        invariant 0 <= i <= |items|
        invariant translationData == UpsertAll(old(translationData), items[..i])
        invariant Valid()
      {
        UpsertAllSnoc(old(translationData), items, i);
        var item := items[i];
        if item.expression != "" {
          SetKeepsDistinct(translationData, Trim(item.expression), item);
          translationData := Set(translationData, Trim(item.expression), item);
        }
        i := i + 1;
      }
      assert items[..i] == items;
      if WellKeyed(old(translationData)) {
        UpsertAllWellKeyed(old(translationData), items);
      }
    }

    /** Line 152: `translationData.set(item.expression, item)` for each stored record, in order, untrimmed. */
    method RestoreTranslations(items: seq<Translation>)
      requires Valid()
      modifies this`translationData
      ensures Valid()
      ensures translationData == SetAll(old(translationData), items)
    {
      var i := 0;
      while i < |items|
        invariant 0 <= i <= |items|
        invariant translationData == SetAll(old(translationData), items[..i])
        invariant Valid()
      {
        SetAllSnoc(old(translationData), items, i);
        var item := items[i];
        SetKeepsDistinct(translationData, item.expression, item);
        translationData := Set(translationData, item.expression, item);
        i := i + 1;
      }
      assert items[..i] == items;
    }

    /**
     * `loadAndRestoreState`: the state becomes `Restore` of the old one; the
     * page is re-rendered exactly when a record was adopted.
     */
    method Load(url: Url, doc: seq<string>)
      requires Valid()
      modifies this`highlightPairs, this`translationData, this`currentStorageKey, this`highlights, this`activeExpressionRanges
      ensures Valid()
      ensures Restore(old(store), StorageKey(url), old(highlightPairs), old(translationData), old(currentStorageKey))
              == Loaded(highlightPairs, translationData, currentStorageKey)
      ensures RestoreSource(store, StorageKey(url)) != NoRecord ==>
        highlights == Highlights(doc, highlightPairs, lastContextText) && activeExpressionRanges == ActiveSpans(doc, highlightPairs)
      ensures RestoreSource(store, StorageKey(url)) == NoRecord ==>
        highlights == old(highlights) && activeExpressionRanges == old(activeExpressionRanges)
    {
      var urlKey := StorageKey(url);
      var loadedSomething := false;
      if urlKey in store {
        match store[urlKey]
        case Structured(pairs, translations) =>
          highlightPairs := pairs;
          RestoreTranslations(translations);
          currentStorageKey := urlKey;
          Render(doc);
          loadedSomething := true;
        case _ =>
      }
      if !loadedSomething {
        if GlobalStorageKey !in store {
          return;
        }
        match store[GlobalStorageKey]
        case Bare(pairs) =>
          highlightPairs := pairs;
          currentStorageKey := GlobalStorageKey;
          Render(doc);
        case _ =>
      }
    }

    /** Ctrl + ArrowUp: the trimmed selection becomes the pending context, shown at once. */
    method SetContext(selectedText: string, doc: seq<string>)
      modifies this`lastContextText, this`highlights, this`activeExpressionRanges
      ensures lastContextText == Some(selectedText)
      ensures highlights == Highlights(doc, highlightPairs, lastContextText)
      ensures activeExpressionRanges == ActiveSpans(doc, highlightPairs)
    {
      lastContextText := Some(selectedText);
      Render(doc);
    }

    /**
     * Ctrl + Shift + ArrowUp: the selection is committed as an expression with
     * the pending context, or else with the trimmed text of the enclosing block
     * (`blockText`); with neither, nothing changes.
     */
    method CommitExpression(selectedText: string, blockText: Option<string>, doc: seq<string>, writeOk: bool)
      modifies this`highlightPairs, this`lastContextText, this`highlights, this`activeExpressionRanges
      modifies this`store, this`clipboardPrompt
      ensures !Truthy(old(lastContextText)) && blockText.None? ==> unchanged(this)
      ensures Truthy(old(lastContextText)) || blockText.Some? ==>
        var context := if Truthy(old(lastContextText)) then old(lastContextText).value else Trim(blockText.value);
        && highlightPairs == old(highlightPairs) + [Pair(context, selectedText)]
        && lastContextText == None
        && highlights == Highlights(doc, highlightPairs, None)
        && activeExpressionRanges == ActiveSpans(doc, highlightPairs)
        && store == (if writeOk then old(store)[currentStorageKey := Record(currentStorageKey, highlightPairs, translationData)]
                     else old(store))
        && clipboardPrompt == Some(highlightPairs)
    {
      var contextText := lastContextText;
      if !Truthy(contextText) {
        if blockText.Some? {
          contextText := Some(Trim(blockText.value));
        } else {
          return;
        }
      }
      highlightPairs := highlightPairs + [Pair(contextText.value, selectedText)];
      lastContextText := None;
      Render(doc);
      var _ := Save(writeOk);
      clipboardPrompt := Some(highlightPairs);
    }

    /** Ctrl + ArrowDown: the record under the current key is removed and the session emptied. */
    method Reset(doc: seq<string>)
      modifies this`highlightPairs, this`lastContextText, this`translationData, this`currentStorageKey
      modifies this`highlights, this`activeExpressionRanges, this`store
      ensures Valid()
      ensures store == old(store) - {old(currentStorageKey)}
      ensures highlightPairs == [] && lastContextText == None && translationData == []
      ensures currentStorageKey == GlobalStorageKey
      ensures highlights == map[] && activeExpressionRanges == []
    {
      store := store - {currentStorageKey};
      highlightPairs := [];
      lastContextText := None;
      translationData := [];
      currentStorageKey := GlobalStorageKey;
      Render(doc);
    }

    /**
     * The `keydown` handler. A collapsed (or absent) selection makes every key
     * a no-op, reset included; otherwise the shortcut's branch runs on the
     * trimmed selection.
     */
    method KeyDown(key: Key, ctrl: bool, shift: bool, isCollapsed: bool, selection: string,
                   blockText: Option<string>, doc: seq<string>, writeOk: bool)
      requires Valid()
      modifies this
      ensures Valid()
      ensures isCollapsed || Shortcut(key, ctrl, shift) == NoCommand ==> unchanged(this)
      ensures !isCollapsed && Shortcut(key, ctrl, shift) == SetContextCommand ==>
        && lastContextText == Some(Trim(selection))
        && highlightPairs == old(highlightPairs) && translationData == old(translationData)
        && currentStorageKey == old(currentStorageKey) && store == old(store) && clipboardPrompt == old(clipboardPrompt)
        && highlights == Highlights(doc, highlightPairs, lastContextText)
        && activeExpressionRanges == ActiveSpans(doc, highlightPairs)
      ensures !isCollapsed && Shortcut(key, ctrl, shift) == CommitCommand && !Truthy(old(lastContextText)) && blockText.None? ==>
        unchanged(this)
      ensures !isCollapsed && Shortcut(key, ctrl, shift) == CommitCommand && (Truthy(old(lastContextText)) || blockText.Some?) ==>
        var context := if Truthy(old(lastContextText)) then old(lastContextText).value else Trim(blockText.value);
        && highlightPairs == old(highlightPairs) + [Pair(context, Trim(selection))]
        && lastContextText == None
        && translationData == old(translationData) && currentStorageKey == old(currentStorageKey)
        && store == (if writeOk then old(store)[currentStorageKey := Record(currentStorageKey, highlightPairs, translationData)]
                     else old(store))
        && clipboardPrompt == Some(highlightPairs)
        && highlights == Highlights(doc, highlightPairs, None)
        && activeExpressionRanges == ActiveSpans(doc, highlightPairs)
      ensures !isCollapsed && Shortcut(key, ctrl, shift) == ResetCommand ==>
        && store == old(store) - {old(currentStorageKey)}
        && highlightPairs == [] && lastContextText == None && translationData == []
        && currentStorageKey == GlobalStorageKey && clipboardPrompt == old(clipboardPrompt)
        && highlights == map[] && activeExpressionRanges == []
    {
      if isCollapsed {
        return;
      }
      var selectedText := Trim(selection);
      if ctrl && !shift && key == ArrowUp {
        SetContext(selectedText, doc);
      }
      if ctrl && shift && key == ArrowUp {
        CommitExpression(selectedText, blockText, doc, writeOk);
      }
      if ctrl && !shift && key == ArrowDown {
        Reset(doc);
      }
    }

    /**
     * `window.injectGPTTranslations`: a non-array argument (`None`) changes
     * nothing; otherwise the records are upserted, the key becomes the page key
     * and the per-page object is saved.
     */
    method InjectTranslations(arg: Option<seq<Translation>>, url: Url, writeOk: bool)
      requires Valid()
      modifies this`translationData, this`currentStorageKey, this`store
      ensures Valid()
      ensures WellKeyed(old(translationData)) ==> WellKeyed(translationData)
      ensures arg.None? ==> unchanged(this)
      ensures arg.Some? ==>
        && translationData == UpsertAll(old(translationData), arg.value)
        && currentStorageKey == StorageKey(url)
        && store == (if writeOk then old(store)[StorageKey(url) := Structured(highlightPairs, Values(translationData))]
                     else old(store))
    {
      if arg.None? {
        return;
      }
      UpsertTranslations(arg.value);
      currentStorageKey := StorageKey(url);
      var _ := Save(writeOk);
    }
  }

  /** Rendering is idempotent: a second render with the same state reproduces the first one's layers and spans. */
  method RenderTwice(s: Session, doc: seq<string>) returns (first: map<string, seq<Range>>, firstSpans: seq<ActiveSpan>)
    modifies s`highlights, s`activeExpressionRanges
    ensures first == Highlights(doc, s.highlightPairs, s.lastContextText)
    ensures s.highlights == first && s.activeExpressionRanges == firstSpans
  {
    s.Render(doc);
    first, firstSpans := s.highlights, s.activeExpressionRanges;
    s.Render(doc);
  }

  /**
   * An injection that is saved is found again by a fresh page load of the
   * same URL: the same pairs, the same translation map, the page key. Line 152
   * restores records under their expressions as stored, so this needs every
   * record to sit under its own expression: the map's so far, and every truthy
   * injected expression already trimmed.
   */
  method ReloadAfterInject(s: Session, items: seq<Translation>, url: Url, doc: seq<string>) returns (page: Session)
    requires s.Valid() && SelfKeyed(s.translationData)
    requires forall j :: 0 <= j < |items| && items[j].expression != "" ==> Trim(items[j].expression) == items[j].expression
    modifies s`translationData, s`currentStorageKey, s`store
    ensures fresh(page) && page.Valid()
    ensures page.highlightPairs == s.highlightPairs && page.translationData == s.translationData
    ensures page.currentStorageKey == StorageKey(url) && page.store == s.store
  {
    UpsertAllSelfKeyed(s.translationData, items);
    s.InjectTranslations(Some(items), url, true);
    page := new Session(s.store);
    SaveRestoreRoundTrip(old(s.store), url, s.highlightPairs, s.translationData, [], GlobalStorageKey);
    page.Load(url, doc);
  }
}
