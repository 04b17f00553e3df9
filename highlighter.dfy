/**
 * The highlight renderer's specification: the two highlight layers and the
 * list of active expression spans that one rendering pass rebuilds from the
 * pairs and the pending context alone.
 */
module Highlighter {
  import opened Wrappers
  import opened JsString
  import opened Locator

  const ContextHighlightName := "gpt-context-highlight"
  const ExpressionHighlightName := "gpt-expression-highlight"

  /** A committed (context, expression) pair. */
  datatype Pair = Pair(context: string, expression: string)

  /** An entry of `activeExpressionRanges`: a located range and the expression it came from. */
  datatype ActiveSpan = ActiveSpan(range: Range, text: string)

  /** JavaScript truthiness of a string that may be null: present and non-empty. */
  predicate Truthy(s: Option<string>) {
    s.Some? && s.value != ""
  }

  /** `rs.forEach(range => ... push({ range, text }))`. */
  function Tag(rs: seq<Range>, text: string): (spans: seq<ActiveSpan>)
    ensures |spans| == |rs|
    ensures forall k :: 0 <= k < |rs| ==> spans[k].range == rs[k] && spans[k].text == text
  {
    seq(|rs|, k requires 0 <= k < |rs| => ActiveSpan(rs[k], text))
  }

  /** The occurrences of every pair's context, pair by pair. */
  function ContextRanges(doc: seq<string>, pairs: seq<Pair>): seq<Range> {
    if pairs == [] then []
    else ContextRanges(doc, pairs[..|pairs| - 1]) + Locate(doc, pairs[|pairs| - 1].context)
  }

  /** The occurrences of every pair's expression, pair by pair. */
  function ExpressionRanges(doc: seq<string>, pairs: seq<Pair>): seq<Range> {
    if pairs == [] then []
    else ExpressionRanges(doc, pairs[..|pairs| - 1]) + Locate(doc, pairs[|pairs| - 1].expression)
  }

  /** `activeExpressionRanges` after a render: each expression occurrence tagged with its expression. */
  function ActiveSpans(doc: seq<string>, pairs: seq<Pair>): seq<ActiveSpan> {
    if pairs == [] then []
    else
      var last := pairs[|pairs| - 1].expression;
      ActiveSpans(doc, pairs[..|pairs| - 1]) + Tag(Locate(doc, last), last)
  }

  /** The context layer: every pair's context, then the pending context when it is set. */
  function ContextLayer(doc: seq<string>, pairs: seq<Pair>, pending: Option<string>): seq<Range> {
    ContextRanges(doc, pairs) + if Truthy(pending) then Locate(doc, pending.value) else []
  }

  /** `CSS.highlights` after a render, by highlight name. */
  function Highlights(doc: seq<string>, pairs: seq<Pair>, pending: Option<string>): map<string, seq<Range>> {
    if |pairs| == 0 && !Truthy(pending) then map[]
    else map[ContextHighlightName := ContextLayer(doc, pairs, pending),
             ExpressionHighlightName := ExpressionRanges(doc, pairs)]
  }

  /** Rendering one more pair extends each of the three lists by that pair's matches. */
  lemma RenderStep(doc: seq<string>, pairs: seq<Pair>, i: nat)
    requires i < |pairs|
    ensures ContextRanges(doc, pairs[..i + 1]) == ContextRanges(doc, pairs[..i]) + Locate(doc, pairs[i].context)
    ensures ExpressionRanges(doc, pairs[..i + 1]) == ExpressionRanges(doc, pairs[..i]) + Locate(doc, pairs[i].expression)
    ensures ActiveSpans(doc, pairs[..i + 1]) ==
      ActiveSpans(doc, pairs[..i]) + Tag(Locate(doc, pairs[i].expression), pairs[i].expression)
  {
    assert pairs[..i + 1][..i] == pairs[..i];
  }

  /** The tooltip's spans are the expression layer, range for range and in the same order. */
  lemma {:induction false} ActiveSpansMirrorExpressionLayer(doc: seq<string>, pairs: seq<Pair>)
    ensures |ActiveSpans(doc, pairs)| == |ExpressionRanges(doc, pairs)|
    ensures forall i :: 0 <= i < |ActiveSpans(doc, pairs)| ==>
      ActiveSpans(doc, pairs)[i].range == ExpressionRanges(doc, pairs)[i]
  {
    if pairs != [] {
      var init := pairs[..|pairs| - 1];
      ActiveSpansMirrorExpressionLayer(doc, init);
      var last := pairs[|pairs| - 1].expression;
      var a: seq<ActiveSpan> := ActiveSpans(doc, init);
      var e: seq<Range> := ExpressionRanges(doc, init);
      var l: seq<Range> := Locate(doc, last);
      var t: seq<ActiveSpan> := Tag(l, last);
      forall i | 0 <= i < |a| + |t| ensures (a + t)[i].range == (e + l)[i] {
        if i >= |a| {
          assert (a + t)[i] == t[i - |a|];
        }
      }
    }
  }

  /** Every active span covers an occurrence of its text, and that text is the expression of some pair. */
  lemma {:induction false} ActiveSpansSound(doc: seq<string>, pairs: seq<Pair>)
    ensures forall s :: s in ActiveSpans(doc, pairs) ==>
      (exists p :: p in pairs && p.expression == s.text) && Matches(doc, s.text, s.range)
  {
    if pairs != [] {
      var init := pairs[..|pairs| - 1];
      var lastPair := pairs[|pairs| - 1];
      ActiveSpansSound(doc, init);
      LocateSound(doc, lastPair.expression);
      var t := Tag(Locate(doc, lastPair.expression), lastPair.expression);
      forall s | s in ActiveSpans(doc, pairs)
        ensures (exists p :: p in pairs && p.expression == s.text) && Matches(doc, s.text, s.range)
      {
        if s in t {
          var k :| 0 <= k < |t| && t[k] == s;
          assert s.range in Locate(doc, lastPair.expression);
          assert lastPair in pairs;
        } else {
          assert s in ActiveSpans(doc, init);
          var p :| p in init && p.expression == s.text;
          assert p in pairs;
        }
      }
    }
  }

  /** Every range of the context layer covers the context of some pair or the pending context. */
  lemma {:induction false} ContextLayerSound(doc: seq<string>, pairs: seq<Pair>, pending: Option<string>)
    ensures forall r :: r in ContextLayer(doc, pairs, pending) ==>
      (exists p :: p in pairs && Matches(doc, p.context, r)) || (Truthy(pending) && Matches(doc, pending.value, r))
  {
    ContextRangesSound(doc, pairs);
    if Truthy(pending) {
      LocateSound(doc, pending.value);
    }
  }

  lemma {:induction false} ContextRangesSound(doc: seq<string>, pairs: seq<Pair>)
    ensures forall r :: r in ContextRanges(doc, pairs) ==> exists p :: p in pairs && Matches(doc, p.context, r)
  {
    if pairs != [] {
      var init := pairs[..|pairs| - 1];
      var lastPair := pairs[|pairs| - 1];
      ContextRangesSound(doc, init);
      LocateSound(doc, lastPair.context);
      forall r | r in ContextRanges(doc, pairs) ensures exists p :: p in pairs && Matches(doc, p.context, r) {
        if r in Locate(doc, lastPair.context) {
          assert lastPair in pairs;
        } else {
          assert r in ContextRanges(doc, init);
          var p :| p in init && Matches(doc, p.context, r);
          assert p in pairs;
        }
      }
    }
  }

  /** Every range of the expression layer covers the expression of some pair. */
  lemma {:induction false} ExpressionRangesSound(doc: seq<string>, pairs: seq<Pair>)
    ensures forall r :: r in ExpressionRanges(doc, pairs) ==> exists p :: p in pairs && Matches(doc, p.expression, r)
  {
    if pairs != [] {
      var init := pairs[..|pairs| - 1];
      var lastPair := pairs[|pairs| - 1];
      ExpressionRangesSound(doc, init);
      LocateSound(doc, lastPair.expression);
      forall r | r in ExpressionRanges(doc, pairs) ensures exists p :: p in pairs && Matches(doc, p.expression, r) {
        if r in Locate(doc, lastPair.expression) {
          assert lastPair in pairs;
        } else {
          assert r in ExpressionRanges(doc, init);
          var p :| p in init && Matches(doc, p.expression, r);
          assert p in pairs;
        }
      }
    }
  }
}
