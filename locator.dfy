/**
 * The range locator: every non-overlapping, left-to-right, case-sensitive
 * occurrence of a needle in the text nodes of the page, in document order.
 * The page is the sequence of its text-node strings in tree-walker order.
 */
module Locator {
  import opened JsString

  /** A live range over one text node: node index, start offset, end offset. */
  datatype Range = Range(node: nat, start: nat, end: nat)

  /** The greedy matches in text node `n` (content `t`) from offset `from` on. */
  function NodeRanges(n: nat, t: string, needle: string, from: nat): seq<Range>
    requires needle != [] && from <= |t|
    decreases |t| - from
  {
    var k := IndexOf(t, needle, from);
    if k == -1 then [] else [Range(n, k, k + |needle|)] + NodeRanges(n, t, needle, k + |needle|)
  }

  /** The matches in the first `m` text nodes, concatenated in node order. */
  function LocateUpTo(doc: seq<string>, needle: string, m: nat): seq<Range>
    requires needle != [] && m <= |doc|
  {
    if m == 0 then [] else LocateUpTo(doc, needle, m - 1) + NodeRanges(m - 1, doc[m - 1], needle, 0)
  }

  /** What `findTextRanges` returns; an empty needle stands also for the absent one. */
  function Locate(doc: seq<string>, needle: string): seq<Range> {
    if needle == [] then [] else LocateUpTo(doc, needle, |doc|)
  }

  /** `r` really covers an occurrence of `needle`. */
  ghost predicate Matches(doc: seq<string>, needle: string, r: Range) {
    r.node < |doc| && r.end == r.start + |needle| && Occurs(doc[r.node], needle, r.start)
  }

  /** `a` comes wholly before `b`: an earlier node, or the same node and no overlap. */
  predicate Before(a: Range, b: Range) {
    a.node < b.node || (a.node == b.node && a.end <= b.start)
  }

  ghost predicate Ordered(rs: seq<Range>) {
    forall i, j :: 0 <= i < j < |rs| ==> Before(rs[i], rs[j])
  }

  /** Offset `p` of node `n` lies strictly inside one of the ranges `rs`. */
  ghost predicate Covered(rs: seq<Range>, n: nat, p: nat) {
    exists r :: r in rs && r.node == n && r.start < p < r.end
  }

  /** `findTextRanges` (the nested tree-walker and `indexOf` loops): the outer loop over text nodes. */
  method FindTextRanges(doc: seq<string>, needle: string) returns (ranges: seq<Range>)
    ensures ranges == Locate(doc, needle)
    ensures needle == [] ==> ranges == []
  {
    if needle == [] {
      return [];
    }
    ranges := [];
    var i := 0;
    while i < |doc|
      invariant 0 <= i <= |doc|
      invariant ranges == LocateUpTo(doc, needle, i)
    {
      var nodeRanges := ScanNode(i, doc[i], needle);
      ranges := ranges + nodeRanges;
      i := i + 1;
    }
  }

  /** The inner `indexOf` loop of `findTextRanges` over one text node `n` with content `node`. */
  method ScanNode(n: nat, node: string, needle: string) returns (ranges: seq<Range>)
    requires needle != []
    ensures ranges == NodeRanges(n, node, needle, 0)
  {
    ranges := [];
    var startIndex: nat := 0;
    var found := IndexOf(node, needle, startIndex);
    while found != -1
      invariant startIndex <= |node|
      invariant found == IndexOf(node, needle, startIndex)
      invariant ranges + NodeRanges(n, node, needle, startIndex) == NodeRanges(n, node, needle, 0)
      decreases |node| - startIndex
    {
      ScanStep(n, node, needle, ranges, startIndex, found);
      ranges := ranges + [Range(n, found, found + |needle|)];
      startIndex := found + |needle|;
      found := IndexOf(node, needle, startIndex);
    }
    NodeRangesEnd(n, node, needle, startIndex);
    assert ranges + [] == ranges;
  }

  /** One iteration of the inner loop keeps its invariant. */
  lemma ScanStep(n: nat, t: string, needle: string, ranges: seq<Range>, from: nat, k: int)
    requires needle != [] && from <= |t| && k == IndexOf(t, needle, from) && k != -1
    requires ranges + NodeRanges(n, t, needle, from) == NodeRanges(n, t, needle, 0)
    ensures from <= k && k + |needle| <= |t|
    ensures (ranges + [Range(n, k, k + |needle|)]) + NodeRanges(n, t, needle, k + |needle|) == NodeRanges(n, t, needle, 0)
  {
    NodeRangesStep(n, t, needle, from, k);
    var rest := NodeRanges(n, t, needle, k + |needle|);
    assert ranges + ([Range(n, k, k + |needle|)] + rest) == (ranges + [Range(n, k, k + |needle|)]) + rest;
  }

  /** One iteration of the inner loop: the hit `k` at `IndexOf(t, needle, from)` is the first of the remaining matches. */
  lemma NodeRangesStep(n: nat, t: string, needle: string, from: nat, k: int)
    requires needle != [] && from <= |t| && k == IndexOf(t, needle, from) && k != -1
    ensures from <= k && k + |needle| <= |t|
    ensures NodeRanges(n, t, needle, from) == [Range(n, k, k + |needle|)] + NodeRanges(n, t, needle, k + |needle|)
  {
    assert Occurs(t, needle, k);
  }

  /** The inner loop stops when `indexOf` fails: no matches remain. */
  lemma NodeRangesEnd(n: nat, t: string, needle: string, from: nat)
    requires needle != [] && from <= |t| && IndexOf(t, needle, from) == -1
    ensures NodeRanges(n, t, needle, from) == []
  {
  }

  lemma {:induction false} NodeRangesSound(n: nat, t: string, needle: string, from: nat)
    requires needle != [] && from <= |t|
    ensures forall r :: r in NodeRanges(n, t, needle, from) ==>
      r.node == n && from <= r.start && r.end == r.start + |needle| && Occurs(t, needle, r.start)
    decreases |t| - from
  {
    var k := IndexOf(t, needle, from);
    if k != -1 {
      NodeRangesSound(n, t, needle, k + |needle|);
    }
  }

  /** The position facts of `NodeRangesSound`, without the text comparison. */
  lemma NodeRangesAfter(n: nat, t: string, needle: string, from: nat)
    requires needle != [] && from <= |t|
    ensures forall r :: r in NodeRanges(n, t, needle, from) ==>
      r.node == n && from <= r.start && r.end == r.start + |needle|
  {
    NodeRangesSound(n, t, needle, from);
  }

  lemma {:induction false} NodeRangesOrdered(n: nat, t: string, needle: string, from: nat)
    requires needle != [] && from <= |t|
    ensures Ordered(NodeRanges(n, t, needle, from))
    decreases |t| - from
  {
    var k := IndexOf(t, needle, from);
    if k != -1 {
      var rest := NodeRanges(n, t, needle, k + |needle|);
      assert NodeRanges(n, t, needle, from) == [Range(n, k, k + |needle|)] + rest;
      NodeRangesOrdered(n, t, needle, k + |needle|);
      NodeRangesAfter(n, t, needle, k + |needle|);
      OrderedCons(Range(n, k, k + |needle|), rest);
    }
  }

  /** A head range that comes before every range of an ordered list keeps it ordered. */
  lemma OrderedCons(head: Range, rest: seq<Range>)
    requires Ordered(rest) && forall r :: r in rest ==> Before(head, r)
    ensures Ordered([head] + rest)
  {
    var rs := [head] + rest;
    forall i, j | 0 <= i < j < |rs| ensures Before(rs[i], rs[j]) {
      if i > 0 {
        assert rs[i] == rest[i - 1] && rs[j] == rest[j - 1];
      } else {
        assert rs[j] in rest;
      }
    }
  }

  /** An occurrence at or after `from` makes `indexOf` succeed no later than it. */
  lemma IndexOfAtMost(s: string, t: string, from: nat, p: nat)
    requires from <= p && Occurs(s, t, p)
    ensures from <= |s| && IndexOf(s, t, from) != -1 && from <= IndexOf(s, t, from) <= p
    ensures IndexOf(s, t, from) + |t| <= |s|
  {
    IndexOfFirst(s, t, from);
  }

  /** A head range starting at or before `p` and reaching past it decides both sides. */
  lemma HeadDecides(head: Range, rest: seq<Range>, L: nat, p: nat)
    requires head.start <= p < head.end == head.start + L
    requires forall r :: r in rest ==> head.end <= r.start
    ensures Range(head.node, p, p + L) in [head] + rest <==> !Covered([head] + rest, head.node, p)
  {
    if p == head.start {
      forall r | r in [head] + rest ensures !(r.node == head.node && r.start < p < r.end) {
        if r != head {
          assert r in rest;
        }
      }
    } else {
      assert Covered([head] + rest, head.node, p) by { assert head in [head] + rest; }
      assert Range(head.node, p, p + L) !in rest;
    }
  }

  /** A head range ending at or before `p` changes neither side. */
  lemma HeadIrrelevant(head: Range, rest: seq<Range>, L: nat, p: nat)
    requires head.start < head.end <= p
    ensures Range(head.node, p, p + L) in [head] + rest <==> Range(head.node, p, p + L) in rest
    ensures Covered([head] + rest, head.node, p) <==> Covered(rest, head.node, p)
  {
    if Covered([head] + rest, head.node, p) {
      var r :| r in [head] + rest && r.node == head.node && r.start < p < r.end;
      assert r != head;
      assert r in rest;
    }
    if Covered(rest, head.node, p) {
      var r :| r in rest && r.node == head.node && r.start < p < r.end;
      assert r in [head] + rest;
    }
  }

  /**
   * Greedy leftmost characterisation of one node: an occurrence at or after
   * `from` is returned exactly when no returned range already covers its start.
   */
  lemma {:induction false} NodeRangesComplete(n: nat, t: string, needle: string, from: nat, p: nat)
    requires needle != [] && from <= |t|
    requires from <= p && Occurs(t, needle, p)
    ensures Range(n, p, p + |needle|) in NodeRanges(n, t, needle, from) <==> !Covered(NodeRanges(n, t, needle, from), n, p)
    decreases |t| - from
  {
    IndexOfAtMost(t, needle, from, p);
    var k := IndexOf(t, needle, from);
    if p < k + |needle| {
      CompleteAtHead(n, t, needle, from, p);
    } else {
      NodeRangesComplete(n, t, needle, k + |needle|, p);
      CompletePastHead(n, t, needle, from, p);
    }
  }

  /** An occurrence at `p` starting inside the first match is decided by that match. */
  lemma CompleteAtHead(n: nat, t: string, needle: string, from: nat, p: nat)
    requires needle != [] && from <= |t| && IndexOf(t, needle, from) != -1
    requires IndexOf(t, needle, from) <= p < IndexOf(t, needle, from) + |needle|
    ensures Range(n, p, p + |needle|) in NodeRanges(n, t, needle, from) <==> !Covered(NodeRanges(n, t, needle, from), n, p)
  {
    var k := IndexOf(t, needle, from);
    NodeRangesStep(n, t, needle, from, k);
    NodeRangesAfter(n, t, needle, k + |needle|);
    HeadDecides(Range(n, k, k + |needle|), NodeRanges(n, t, needle, k + |needle|), |needle|, p);
  }

  /** An occurrence at `p` past the first match is decided by the matches after it. */
  lemma CompletePastHead(n: nat, t: string, needle: string, from: nat, p: nat)
    requires needle != [] && from <= |t| && IndexOf(t, needle, from) != -1
    requires IndexOf(t, needle, from) + |needle| <= p
    requires IndexOf(t, needle, from) + |needle| <= |t|
    requires var rest := NodeRanges(n, t, needle, IndexOf(t, needle, from) + |needle|);
      Range(n, p, p + |needle|) in rest <==> !Covered(rest, n, p)
    ensures Range(n, p, p + |needle|) in NodeRanges(n, t, needle, from) <==> !Covered(NodeRanges(n, t, needle, from), n, p)
  {
    var k := IndexOf(t, needle, from);
    NodeRangesStep(n, t, needle, from, k);
    HeadIrrelevant(Range(n, k, k + |needle|), NodeRanges(n, t, needle, k + |needle|), |needle|, p);
  }

  /** The ranges of text node `n` among the first `m` nodes are exactly that node's greedy matches. */
  lemma {:induction false} LocateUpToNode(doc: seq<string>, needle: string, m: nat, r: Range)
    requires needle != [] && m <= |doc|
    ensures r in LocateUpTo(doc, needle, m) <==> r.node < m && r in NodeRanges(r.node, doc[r.node], needle, 0)
  {
    if m > 0 {
      LocateUpToNode(doc, needle, m - 1, r);
      NodeRangesSound(m - 1, doc[m - 1], needle, 0);
      if r.node < m - 1 && r in NodeRanges(r.node, doc[r.node], needle, 0) {
        NodeRangesSound(r.node, doc[r.node], needle, 0);
      }
    }
  }

  lemma {:induction false} LocateUpToOrdered(doc: seq<string>, needle: string, m: nat)
    requires needle != [] && m <= |doc|
    ensures Ordered(LocateUpTo(doc, needle, m))
    ensures forall r :: r in LocateUpTo(doc, needle, m) ==> r.node < m
  {
    if m > 0 {
      LocateUpToOrdered(doc, needle, m - 1);
      NodeRangesOrdered(m - 1, doc[m - 1], needle, 0);
      NodeRangesSound(m - 1, doc[m - 1], needle, 0);
      var init := LocateUpTo(doc, needle, m - 1);
      var last := NodeRanges(m - 1, doc[m - 1], needle, 0);
      var rs := init + last;
      forall i, j | 0 <= i < j < |rs| ensures Before(rs[i], rs[j]) {
        if j < |init| {
          assert rs[i] == init[i] && rs[j] == init[j];
        } else if i >= |init| {
          assert rs[i] == last[i - |init|] && rs[j] == last[j - |init|];
        } else {
          assert rs[i] in init && rs[j] in last;
        }
      }
    }
  }

  /** Soundness: every located range covers an occurrence of the needle. */
  lemma LocateSound(doc: seq<string>, needle: string)
    ensures forall r :: r in Locate(doc, needle) ==> Matches(doc, needle, r)
  {
    if needle != [] {
      forall r | r in Locate(doc, needle) ensures Matches(doc, needle, r) {
        LocateUpToNode(doc, needle, |doc|, r);
        NodeRangesSound(r.node, doc[r.node], needle, 0);
      }
    }
  }

  /** Order: node by node, and within a node left to right without overlap. */
  lemma LocateOrdered(doc: seq<string>, needle: string)
    ensures Ordered(Locate(doc, needle))
  {
    if needle != [] {
      LocateUpToOrdered(doc, needle, |doc|);
    }
  }

  /**
   * Completeness: an occurrence of a non-empty needle is located exactly when
   * it does not start strictly inside an occurrence located before it.
   */
  lemma LocateComplete(doc: seq<string>, needle: string, n: nat, p: nat)
    requires needle != [] && n < |doc| && Occurs(doc[n], needle, p)
    ensures Range(n, p, p + |needle|) in Locate(doc, needle) <==> !Covered(Locate(doc, needle), n, p)
  {
    var all := Locate(doc, needle);
    var mine := NodeRanges(n, doc[n], needle, 0);
    LocateUpToNode(doc, needle, |doc|, Range(n, p, p + |needle|));
    NodeRangesComplete(n, doc[n], needle, 0, p);
    if Covered(all, n, p) {
      var r :| r in all && r.node == n && r.start < p < r.end;
      LocateUpToNode(doc, needle, |doc|, r);
      assert r in mine;
    }
    if Covered(mine, n, p) {
      var r :| r in mine && r.node == n && r.start < p < r.end;
      LocateUpToNode(doc, needle, |doc|, r);
      assert r in all;
    }
  }
}
