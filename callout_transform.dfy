/**
 * The callout transform itself (`remarkCallout`): one left-to-right scan of
 * the top-level children that records the callout spans, then an in-place
 * splice of the spans in reverse order, each span (both markers included)
 * becoming one raw HTML node.
 */
module CalloutTransform {
  import opened Wrappers
  import opened Strings
  import opened RemarkCallout

  // ----- markers -----

  /** How the scan sees a top-level child. */
  datatype Marker = Opening(kind: CalloutType, title: Option<string>) | Closing | Other

  /**
   * A paragraph whose trimmed flattened text matches the opening pattern
   * opens; one whose text matches the closing pattern closes; nothing else
   * is a marker.
   */
  function Classify(b: Block): Marker
  {
    if !b.Paragraph? then Other
    else
      var text := Trim(InlinesText(b.inlines));
      var start := MatchStart(text);
      if start.Some? then Opening(start.value.kind, start.value.title)
      else if MatchEnd(text) then Closing
      else Other
  }

  /**
   * Opening markers are exactly the paragraphs whose trimmed text matches
   * the opening pattern, with its type and title; closing markers are
   * exactly the paragraphs whose trimmed text is `:::`.
   */
  lemma {:induction false} ClassifyMeaning(b: Block)
    ensures Classify(b).Opening? <==> b.Paragraph? && MatchStart(Trim(InlinesText(b.inlines))).Some?
    ensures Classify(b).Opening? ==>
      MatchStart(Trim(InlinesText(b.inlines))) == Some(StartMarker(Classify(b).kind, Classify(b).title))
    ensures Classify(b).Closing? <==> b.Paragraph? && Trim(InlinesText(b.inlines)) == ":::"
  {
    if b.Paragraph? && Trim(InlinesText(b.inlines)) == ":::" {
      EndIsNotStart();
    }
  }

  /** The marker of each child, in order. */
  function Markers(c: seq<Block>): seq<Marker>
  {
    if |c| == 0 then [] else [Classify(c[0])] + Markers(c[1..])
  }

  lemma {:induction false} MarkersAt(c: seq<Block>, j: nat)
    requires j < |c|
    ensures |Markers(c)| == |c| && Markers(c)[j] == Classify(c[j])
  {
    MarkersLength(c);
    if j > 0 {
      MarkersAt(c[1..], j - 1);
    }
  }

  lemma {:induction false} MarkersLength(c: seq<Block>)
    ensures |Markers(c)| == |c|
  {
    if |c| > 0 {
      MarkersLength(c[1..]);
    }
  }

  // ----- the scan -----

  /** A recorded callout: the indices of its two marker paragraphs, its type and title. */
  datatype Span = Span(start: nat, end: nat, kind: CalloutType, title: Option<string>)

  /** Either no callout is open, or one is, opened at `start`. */
  datatype ScanState = Idle | Open(start: nat, kind: CalloutType, title: Option<string>)

  /**
   * What the scan does at index `j`: an opening marker opens when none is
   * open, a closing marker closes the open one (recording a span), and
   * anything else, including an opening marker while one is open, does nothing.
   */
  function Step(st: ScanState, j: nat, m: Marker): (ScanState, seq<Span>)
  {
    if m.Opening? && st.Idle? then (Open(j, m.kind, m.title), [])
    else if m.Closing? && st.Open? then (Idle, [Span(st.start, j, st.kind, st.title)])
    else (st, [])
  }

  /** The scan state and the spans recorded after the first `i` markers. */
  function Scanned(ms: seq<Marker>, i: nat): (ScanState, seq<Span>)
    requires i <= |ms|
  {
    if i == 0 then (Idle, [])
    else
      var prev := Scanned(ms, i - 1);
      var next := Step(prev.0, i - 1, ms[i - 1]);
      (next.0, prev.1 + next.1)
  }

  /** The spans the scan records over the whole sequence. */
  function SpansOf(ms: seq<Marker>): seq<Span> {
    Scanned(ms, |ms|).1
  }

  function Spans(c: seq<Block>): seq<Span> {
    SpansOf(Markers(c))
  }

  predicate Covered(sp: seq<Span>, j: int) {
    exists k :: 0 <= k < |sp| && sp[k].start <= j <= sp[k].end
  }

  /** Every span lies below `n` with its start before its end; spans are ascending and disjoint. */
  predicate Ordered(sp: seq<Span>, n: int) {
    && (forall k :: 0 <= k < |sp| ==> sp[k].start < sp[k].end < n)
    && (forall k1, k2 :: 0 <= k1 < k2 < |sp| ==> sp[k1].end < sp[k2].start)
  }

  /**
   * Each span starts at an opening marker carrying its type and title, ends
   * at a closing marker, and has no closing marker strictly inside.
   */
  predicate Marked(ms: seq<Marker>, sp: seq<Span>) {
    forall k :: 0 <= k < |sp| ==>
      && sp[k].start < sp[k].end < |ms|
      && ms[sp[k].start] == Opening(sp[k].kind, sp[k].title)
      && ms[sp[k].end] == Closing
      && (forall j :: sp[k].start < j < sp[k].end ==> ms[j] != Closing)
  }

  /** The open callout, if any, starts after every span at its opening marker, with no close since. */
  predicate OpenOk(ms: seq<Marker>, i: nat, st: ScanState, sp: seq<Span>)
    requires i <= |ms|
  {
    st.Open? ==>
      && st.start < i
      && ms[st.start] == Opening(st.kind, st.title)
      && (forall j :: st.start < j < i ==> ms[j] != Closing)
      && (forall k :: 0 <= k < |sp| ==> sp[k].end < st.start)
  }

  /** Every opening marker outside the spans lies at or after the open one. */
  predicate OpeningsAccounted(ms: seq<Marker>, i: nat, st: ScanState, sp: seq<Span>)
    requires i <= |ms|
  {
    forall j :: 0 <= j < i && ms[j].Opening? && !Covered(sp, j) ==> st.Open? && st.start <= j
  }

  /** A closing marker outside the spans comes when every earlier opening marker is in a span. */
  predicate StrayClosings(ms: seq<Marker>, i: nat, sp: seq<Span>)
    requires i <= |ms|
  {
    forall j :: 0 <= j < i && ms[j].Closing? && !Covered(sp, j) ==>
      forall m :: 0 <= m < j && ms[m].Opening? ==> Covered(sp, m)
  }

  predicate ScanInv(ms: seq<Marker>, i: nat, st: ScanState, sp: seq<Span>)
    requires i <= |ms|
  {
    Ordered(sp, i) && Marked(ms, sp) && OpenOk(ms, i, st, sp)
    && OpeningsAccounted(ms, i, st, sp) && StrayClosings(ms, i, sp)
  }

  lemma {:induction false} CoveredGrows(sp: seq<Span>, extra: seq<Span>, j: int)
    requires Covered(sp, j)
    ensures Covered(sp + extra, j)
  {
    var k :| 0 <= k < |sp| && sp[k].start <= j <= sp[k].end;
    assert (sp + extra)[k] == sp[k];
  }

  /** A step that opens a callout keeps the invariant. */
  lemma {:induction false} StepOpens(ms: seq<Marker>, i: nat, sp: seq<Span>)
    requires i < |ms| && ScanInv(ms, i, Idle, sp) && ms[i].Opening?
    ensures ScanInv(ms, i + 1, Open(i, ms[i].kind, ms[i].title), sp)
  {
  }

  /** A step that closes the open callout keeps the invariant. */
  lemma {:induction false} StepCloses(ms: seq<Marker>, i: nat, st: ScanState, sp: seq<Span>)
    requires i < |ms| && ScanInv(ms, i, st, sp) && st.Open? && ms[i].Closing?
    ensures ScanInv(ms, i + 1, Idle, sp + [Span(st.start, i, st.kind, st.title)])
  {
    var s := Span(st.start, i, st.kind, st.title);
    var sp2 := sp + [s];
    assert sp2[|sp|] == s;
    assert forall k :: 0 <= k < |sp| ==> sp2[k] == sp[k];
    assert Ordered(sp2, i + 1);
    assert Marked(ms, sp2);
    assert OpeningsAccounted(ms, i + 1, Idle, sp2) by {
      forall j | 0 <= j < i + 1 && ms[j].Opening?
        ensures Covered(sp2, j)
      {
        if Covered(sp, j) {
          CoveredGrows(sp, [s], j);
        } else {
          assert sp2[|sp|].start <= j <= sp2[|sp|].end;
        }
      }
    }
    assert StrayClosings(ms, i + 1, sp2) by {
      assert Covered(sp2, i) by {
        assert sp2[|sp|].start <= i <= sp2[|sp|].end;
      }
      forall j, m | 0 <= j < i && ms[j].Closing? && !Covered(sp2, j) && 0 <= m < j && ms[m].Opening?
        ensures Covered(sp2, m)
      {
        if Covered(sp, j) {
          CoveredGrows(sp, [s], j);
        } else {
          CoveredGrows(sp, [s], m);
        }
      }
    }
  }

  /** A step at any other marker keeps the invariant. */
  lemma {:induction false} StepSkips(ms: seq<Marker>, i: nat, st: ScanState, sp: seq<Span>)
    requires i < |ms| && ScanInv(ms, i, st, sp)
    requires !(ms[i].Opening? && st.Idle?) && !(ms[i].Closing? && st.Open?)
    ensures ScanInv(ms, i + 1, st, sp)
  {
  }

  lemma {:induction false} ScannedInv(ms: seq<Marker>, i: nat)
    requires i <= |ms|
    ensures ScanInv(ms, i, Scanned(ms, i).0, Scanned(ms, i).1)
  {
    if i > 0 {
      var j := i - 1;
      ScannedInv(ms, j);
      ScanStepInv(ms, j, i);
    }
  }

  /** The step at marker `j` keeps the invariant (`i` is `j + 1`). */
  lemma {:induction false} ScanStepInv(ms: seq<Marker>, j: nat, i: nat)
    requires i == j + 1 && i <= |ms| && ScanInv(ms, j, Scanned(ms, j).0, Scanned(ms, j).1)
    ensures ScanInv(ms, i, Scanned(ms, i).0, Scanned(ms, i).1)
  {
    var st, sp := Scanned(ms, j).0, Scanned(ms, j).1;
    var m := ms[j];
    if m.Opening? && st.Idle? {
      StepOpens(ms, j, sp);
      assert sp + [] == sp;
      assert Scanned(ms, i) == (Open(j, m.kind, m.title), sp);
    } else if m.Closing? && st.Open? {
      StepCloses(ms, j, st, sp);
      assert Scanned(ms, i) == (Idle, sp + [Span(st.start, j, st.kind, st.title)]);
    } else {
      StepSkips(ms, j, st, sp);
      assert sp + [] == sp;
      assert Scanned(ms, i) == (st, sp);
    }
  }

  /** The spans lie inside the sequence, ascending and disjoint, each start before its end. */
  lemma {:induction false} SpansOrdered(ms: seq<Marker>)
    ensures Ordered(SpansOf(ms), |ms|)
  {
    ScannedInv(ms, |ms|);
  }

  /**
   * Each span runs from an opening marker (whose type and title it records)
   * to the first closing marker after it.
   */
  lemma {:induction false} SpansMarked(ms: seq<Marker>)
    ensures Marked(ms, SpansOf(ms))
  {
    ScannedInv(ms, |ms|);
  }

  /**
   * An opening marker outside every span is never closed: either it came
   * while another callout was open, or it opened the last callout, which
   * the document never closes.
   */
  lemma {:induction false} UnclosedOpening(ms: seq<Marker>, j: nat)
    requires j < |ms| && ms[j].Opening? && !Covered(SpansOf(ms), j)
    ensures forall m :: j < m < |ms| ==> ms[m] != Closing
  {
    ScannedInv(ms, |ms|);
  }

  /** A closing marker outside every span comes with no callout open. */
  lemma {:induction false} StrayClosing(ms: seq<Marker>, j: nat)
    requires j < |ms| && ms[j].Closing? && !Covered(SpansOf(ms), j)
    ensures forall m :: 0 <= m < j && ms[m].Opening? ==> Covered(SpansOf(ms), m)
  {
    ScannedInv(ms, |ms|);
  }

  // ----- the splice -----

  /**
   * How a callout's HTML is produced from its type, title and body blocks.
   * The transform uses `CalloutHtml`; the splice and its lemmas hold for any
   * renderer.
   */
  type Renderer = (CalloutType, Option<string>, seq<Block>) -> string

  /** The node that replaces a span: the wrapper around the children strictly between its markers. */
  function CalloutNode(c: seq<Block>, s: Span, render: Renderer): Block
    requires s.start < s.end <= |c|
  {
    Html(render(s.kind, s.title, c[s.start + 1..s.end]))
  }

  lemma {:induction false} OrderedSuffix(sp: seq<Span>, n: int, k: nat)
    requires Ordered(sp, n) && k <= |sp|
    ensures Ordered(sp[k..], n)
  {
    forall k1, k2 | 0 <= k1 < k2 < |sp[k..]|
      ensures sp[k..][k1].end < sp[k..][k2].start
    {
      assert sp[k..][k1] == sp[k1 + k] && sp[k..][k2] == sp[k2 + k];
    }
  }

  /** Where the unprocessed part begins: the first span's start, or the end. */
  function FirstStart(sp: seq<Span>, n: nat): nat {
    if |sp| > 0 then sp[0].start else n
  }

  /** The spans, read from position `pos` on, are ascending and disjoint below `n`. */
  predicate Chain(sp: seq<Span>, pos: int, n: int)
    decreases |sp|
  {
    if |sp| == 0 then pos <= n
    else pos <= sp[0].start < sp[0].end < n && Chain(sp[1..], sp[0].end + 1, n)
  }

  /** Every span of a chain lies between its starting position and the end. */
  lemma {:induction false} ChainAbove(sp: seq<Span>, pos: int, n: int)
    requires Chain(sp, pos, n)
    ensures pos <= n
    ensures forall k :: 0 <= k < |sp| ==> pos <= sp[k].start < sp[k].end < n
    decreases |sp|
  {
    if |sp| > 0 {
      ChainAbove(sp[1..], sp[0].end + 1, n);
      forall k | 0 < k < |sp|
        ensures pos <= sp[k].start < sp[k].end < n
      {
        assert sp[k] == sp[1..][k - 1];
      }
    }
  }

  /** A chain's first span starts at or after its starting position. */
  lemma {:induction false} ChainStart(sp: seq<Span>, pos: int, n: nat)
    requires Chain(sp, pos, n)
    ensures pos <= FirstStart(sp, n) <= n
  {
  }

  /** Ordered spans form a chain from any position up to the first start. */
  lemma {:induction false} OrderedChain(sp: seq<Span>, n: nat, pos: int)
    requires Ordered(sp, n) && pos <= FirstStart(sp, n)
    ensures Chain(sp, pos, n)
    decreases |sp|
  {
    if |sp| > 0 {
      OrderedSuffix(sp, n, 1);
      if |sp| > 1 {
        assert sp[1..][0] == sp[1];
      }
      OrderedChain(sp[1..], n, sp[0].end + 1);
    }
  }

  /** The callout node of each span, in order. */
  function CalloutNodes(c: seq<Block>, sp: seq<Span>, render: Renderer): seq<Block>
    requires forall k :: 0 <= k < |sp| ==> sp[k].start < sp[k].end <= |c|
    decreases |sp|
  {
    if |sp| == 0 then [] else [CalloutNode(c, sp[0], render)] + CalloutNodes(c, sp[1..], render)
  }

  lemma {:induction false} CalloutNodesAt(c: seq<Block>, sp: seq<Span>, render: Renderer, k: nat)
    requires (forall i :: 0 <= i < |sp| ==> sp[i].start < sp[i].end <= |c|) && k < |sp|
    ensures |CalloutNodes(c, sp, render)| == |sp| && CalloutNodes(c, sp, render)[k] == CalloutNode(c, sp[k], render)
    decreases |sp|
  {
    CalloutNodesLength(c, sp, render);
    if k > 0 {
      CalloutNodesAt(c, sp[1..], render, k - 1);
    }
  }

  lemma {:induction false} CalloutNodesLength(c: seq<Block>, sp: seq<Span>, render: Renderer)
    requires forall k :: 0 <= k < |sp| ==> sp[k].start < sp[k].end <= |c|
    ensures |CalloutNodes(c, sp, render)| == |sp|
    decreases |sp|
  {
    if |sp| > 0 {
      CalloutNodesLength(c, sp[1..], render);
    }
  }

  /** The elements from `pos` on, the `k`-th span replaced by `nodes[k]`. */
  function Spliced<T>(c: seq<T>, sp: seq<Span>, nodes: seq<T>, pos: nat): seq<T>
    requires |nodes| == |sp| && Chain(sp, pos, |c|)
    decreases |sp|
  {
    if |sp| == 0 then c[pos..]
    else c[pos..sp[0].start] + [nodes[0]] + Spliced(c, sp[1..], nodes[1..], sp[0].end + 1)
  }

  /** The children after the transform. */
  function Transformed(c: seq<Block>): seq<Block> {
    SpansInRange(c);
    WithCallouts(c, Spans(c), CalloutHtml)
  }

  /** The children with each of the spans `sp` replaced by its callout node. */
  function WithCallouts(c: seq<Block>, sp: seq<Span>, render: Renderer): seq<Block>
    requires Ordered(sp, |c|)
  {
    OrderedChain(sp, |c|, 0);
    CalloutNodesLength(c, sp, render);
    Spliced(c, sp, CalloutNodes(c, sp, render), 0)
  }

  /** `WithCallouts` is the splice of the callout nodes from position 0. */
  lemma {:induction false} WithCalloutsUnfold(c: seq<Block>, sp: seq<Span>, render: Renderer)
    requires Ordered(sp, |c|)
    ensures |CalloutNodes(c, sp, render)| == |sp| && Chain(sp, 0, |c|)
    ensures WithCallouts(c, sp, render) == Spliced(c, sp, CalloutNodes(c, sp, render), 0)
  {
    OrderedChain(sp, |c|, 0);
    CalloutNodesLength(c, sp, render);
  }

  lemma {:induction false} SpansInRange(c: seq<Block>)
    ensures Ordered(Spans(c), |c|)
  {
    SpansOrdered(Markers(c));
    MarkersLength(c);
  }

  lemma {:induction false} SplicedUnfold<T>(c: seq<T>, sp: seq<Span>, nodes: seq<T>, pos: nat)
    requires |nodes| == |sp| > 0 && Chain(sp, pos, |c|)
    ensures Chain(sp[1..], sp[0].end + 1, |c|)
    ensures Spliced(c, sp, nodes, pos)
            == c[pos..sp[0].start] + [nodes[0]] + Spliced(c, sp[1..], nodes[1..], sp[0].end + 1)
  {
  }

  lemma {:induction false} Regroup<T>(x: seq<T>, y: seq<T>, m: seq<T>, r: seq<T>)
    ensures (x + y) + m + r == x + (y + m + r)
  {
  }

  /** The untouched elements before the first span can be split off anywhere. */
  lemma {:induction false} SplicedGap<T>(c: seq<T>, sp: seq<Span>, nodes: seq<T>, a: nat, b: nat)
    requires |nodes| == |sp| && Chain(sp, a, |c|) && a <= b <= FirstStart(sp, |c|)
    ensures Chain(sp, b, |c|) && Spliced(c, sp, nodes, a) == c[a..b] + Spliced(c, sp, nodes, b)
  {
    if |sp| == 0 {
      assert c[a..] == c[a..b] + c[b..];
    } else {
      SplicedUnfold(c, sp, nodes, a);
      SplicedUnfold(c, sp, nodes, b);
      var rest := Spliced(c, sp[1..], nodes[1..], sp[0].end + 1);
      assert c[a..sp[0].start] == c[a..b] + c[b..sp[0].start];
      Regroup(c[a..b], c[b..sp[0].start], [nodes[0]], rest);
    }
  }

  /** The total number of children the spans remove: each span of width e − s + 1 becomes one node. */
  function Removed(sp: seq<Span>): int {
    if |sp| == 0 then 0 else (sp[0].end - sp[0].start) + Removed(sp[1..])
  }

  /** The length drops by the sum of (end − start) over the spans. */
  lemma {:induction false} SplicedLength<T>(c: seq<T>, sp: seq<Span>, nodes: seq<T>, pos: nat)
    requires |nodes| == |sp| && Chain(sp, pos, |c|)
    ensures |Spliced(c, sp, nodes, pos)| == |c| - pos - Removed(sp)
    decreases |sp|
  {
    if |sp| > 0 {
      SplicedUnfold(c, sp, nodes, pos);
      SplicedLength(c, sp[1..], nodes[1..], sp[0].end + 1);
    }
  }

  /** The child count drops by the sum of (end − start) over the spans. */
  lemma {:induction false} TransformedLength(c: seq<Block>)
    ensures |Transformed(c)| == |c| - Removed(Spans(c))
  {
    SpansInRange(c);
    WithCalloutsLength(c, Spans(c), CalloutHtml);
  }

  lemma {:induction false} WithCalloutsLength(c: seq<Block>, sp: seq<Span>, render: Renderer)
    requires Ordered(sp, |c|)
    ensures |WithCallouts(c, sp, render)| == |c| - Removed(sp)
  {
    OrderedChain(sp, |c|, 0);
    CalloutNodesLength(c, sp, render);
    SplicedLength(c, sp, CalloutNodes(c, sp, render), 0);
  }

  /** The widths of the spans that end before `j`. */
  function RemovedBefore(sp: seq<Span>, j: int): int {
    if |sp| == 0 then 0
    else (if sp[0].end < j then sp[0].end - sp[0].start else 0) + RemovedBefore(sp[1..], j)
  }

  /** No span ends before a position up to every span's start. */
  lemma {:induction false} RemovedBeforeLow(sp: seq<Span>, j: int)
    requires forall k :: 0 <= k < |sp| ==> j <= sp[k].start < sp[k].end
    ensures RemovedBefore(sp, j) == 0
  {
    if |sp| > 0 {
      RemovedBeforeLow(sp[1..], j);
    }
  }

  lemma {:induction false} IndexLeft<T>(h: seq<T>, r: seq<T>, i: int)
    requires 0 <= i < |h|
    ensures (h + r)[i] == h[i]
  {
  }

  lemma {:induction false} IndexRight<T>(h: seq<T>, r: seq<T>, i: int)
    requires 0 <= i < |r|
    ensures (h + r)[|h| + i] == r[i]
  {
  }

  /** A position outside every span is outside the later ones. */
  lemma {:induction false} NotCoveredTail(sp: seq<Span>, j: int)
    requires |sp| > 0 && !Covered(sp, j)
    ensures !Covered(sp[1..], j)
  {
    forall k | 0 <= k < |sp[1..]|
      ensures !(sp[1..][k].start <= j <= sp[1..][k].end)
    {
      assert sp[1..][k] == sp[k + 1];
    }
  }

  /**
   * An element outside every span keeps its value and moves left by the
   * widths of the spans before it.
   */
  lemma {:induction false} SplicedKeeps<T>(c: seq<T>, sp: seq<Span>, nodes: seq<T>, pos: nat, j: int)
    requires |nodes| == |sp| && Chain(sp, pos, |c|)
    requires pos <= j < |c| && !Covered(sp, j)
    ensures 0 <= j - pos - RemovedBefore(sp, j) < |Spliced(c, sp, nodes, pos)|
    ensures Spliced(c, sp, nodes, pos)[j - pos - RemovedBefore(sp, j)] == c[j]
    decreases |sp|
  {
    if |sp| > 0 {
      SplicedUnfold(c, sp, nodes, pos);
      if sp[0].end < j {
        NotCoveredTail(sp, j);
        SplicedKeeps(c, sp[1..], nodes[1..], sp[0].end + 1, j);
      }
      KeepStep(c, sp, nodes, pos, j);
    }
  }

  /** One position of `SplicedKeeps`, given the claim for the spans after the first. */
  lemma {:induction false} KeepStep<T>(c: seq<T>, sp: seq<Span>, nodes: seq<T>, pos: nat, j: int)
    requires |nodes| == |sp| > 0 && Chain(sp, pos, |c|)
    requires pos <= j < |c| && !(sp[0].start <= j <= sp[0].end)
    requires sp[0].end < j ==>
      0 <= j - (sp[0].end + 1) - RemovedBefore(sp[1..], j) < |Spliced(c, sp[1..], nodes[1..], sp[0].end + 1)|
      && Spliced(c, sp[1..], nodes[1..], sp[0].end + 1)[j - (sp[0].end + 1) - RemovedBefore(sp[1..], j)] == c[j]
    ensures 0 <= j - pos - RemovedBefore(sp, j) < |Spliced(c, sp, nodes, pos)|
    ensures Spliced(c, sp, nodes, pos)[j - pos - RemovedBefore(sp, j)] == c[j]
  {
    var s0 := sp[0];
    var tail := sp[1..];
    SplicedUnfold(c, sp, nodes, pos);
    var rest := Spliced(c, tail, nodes[1..], s0.end + 1);
    var head := c[pos..s0.start] + [nodes[0]];
    if j < s0.start {
      ChainAbove(tail, s0.end + 1, |c|);
      RemovedBeforeLow(tail, j);
      IndexLeft(head, rest, j - pos);
    } else {
      IndexRight(head, rest, j - (s0.end + 1) - RemovedBefore(tail, j));
    }
  }

  /** The `k`-th span's opening position holds `nodes[k]`. */
  lemma {:induction false} SplicedNodes<T>(c: seq<T>, sp: seq<Span>, nodes: seq<T>, pos: nat, k: nat)
    requires |nodes| == |sp| && Chain(sp, pos, |c|) && k < |sp|
    ensures 0 <= sp[k].start - pos - RemovedBefore(sp, sp[k].start) < |Spliced(c, sp, nodes, pos)|
    ensures Spliced(c, sp, nodes, pos)[sp[k].start - pos - RemovedBefore(sp, sp[k].start)] == nodes[k]
    decreases |sp|
  {
    SplicedUnfold(c, sp, nodes, pos);
    if k > 0 {
      SplicedNodes(c, sp[1..], nodes[1..], sp[0].end + 1, k - 1);
      assert sp[k] == sp[1..][k - 1] && nodes[k] == nodes[1..][k - 1];
    }
    NodeStep(c, sp, nodes, pos, k);
  }

  /** One span of `SplicedNodes`, given the claim for the spans after the first. */
  lemma {:induction false} NodeStep<T>(c: seq<T>, sp: seq<Span>, nodes: seq<T>, pos: nat, k: int)
    requires |nodes| == |sp| && 0 <= k < |sp| && Chain(sp, pos, |c|)
    requires 0 < k ==>
      var t := sp[k].start - (sp[0].end + 1) - RemovedBefore(sp[1..], sp[k].start);
      0 <= t < |Spliced(c, sp[1..], nodes[1..], sp[0].end + 1)|
      && Spliced(c, sp[1..], nodes[1..], sp[0].end + 1)[t] == nodes[k]
    ensures 0 <= sp[k].start - pos - RemovedBefore(sp, sp[k].start) < |Spliced(c, sp, nodes, pos)|
    ensures Spliced(c, sp, nodes, pos)[sp[k].start - pos - RemovedBefore(sp, sp[k].start)] == nodes[k]
  {
    var s0 := sp[0];
    var tail := sp[1..];
    SplicedUnfold(c, sp, nodes, pos);
    ChainAbove(tail, s0.end + 1, |c|);
    var rest := Spliced(c, tail, nodes[1..], s0.end + 1);
    var head := c[pos..s0.start] + [nodes[0]];
    if k == 0 {
      RemovedBeforeLow(tail, s0.start);
      IndexLeft(head, rest, s0.start - pos);
    } else {
      assert sp[k] == tail[k - 1];
      IndexRight(head, rest, sp[k].start - (s0.end + 1) - RemovedBefore(tail, sp[k].start));
    }
  }

  /**
   * A child outside every span keeps its value in the transformed children,
   * shifted left by the widths of the spans before it.
   */
  lemma {:induction false} TransformedKeeps(c: seq<Block>, j: nat)
    requires j < |c| && !Covered(Spans(c), j)
    ensures 0 <= j - RemovedBefore(Spans(c), j) < |Transformed(c)|
    ensures Transformed(c)[j - RemovedBefore(Spans(c), j)] == c[j]
  {
    SpansInRange(c);
    WithCalloutsKeeps(c, Spans(c), CalloutHtml, j);
  }

  lemma {:induction false} WithCalloutsKeeps(c: seq<Block>, sp: seq<Span>, render: Renderer, j: nat)
    requires Ordered(sp, |c|) && j < |c| && !Covered(sp, j)
    ensures 0 <= j - RemovedBefore(sp, j) < |WithCallouts(c, sp, render)|
    ensures WithCallouts(c, sp, render)[j - RemovedBefore(sp, j)] == c[j]
  {
    WithCalloutsUnfold(c, sp, render);
    var nodes := CalloutNodes(c, sp, render);
    SplicedKeepsFromStart(c, sp, nodes, j);
  }

  /** `SplicedKeeps` from position 0. */
  lemma {:induction false} SplicedKeepsFromStart<T>(c: seq<T>, sp: seq<Span>, nodes: seq<T>, j: nat)
    requires |nodes| == |sp| && Chain(sp, 0, |c|) && j < |c| && !Covered(sp, j)
    ensures 0 <= j - RemovedBefore(sp, j) < |Spliced(c, sp, nodes, 0)|
    ensures Spliced(c, sp, nodes, 0)[j - RemovedBefore(sp, j)] == c[j]
  {
    SplicedKeeps(c, sp, nodes, 0, j);
    assert j - RemovedBefore(sp, j) == j - 0 - RemovedBefore(sp, j);
  }

  /**
   * Each span's opening position, shifted left by the widths of the spans
   * before it, holds the callout node built from the original children.
   */
  lemma {:induction false} TransformedNode(c: seq<Block>, k: nat)
    requires k < |Spans(c)|
    ensures Ordered(Spans(c), |c|)
    ensures 0 <= Spans(c)[k].start - RemovedBefore(Spans(c), Spans(c)[k].start) < |Transformed(c)|
    ensures Transformed(c)[Spans(c)[k].start - RemovedBefore(Spans(c), Spans(c)[k].start)]
            == CalloutNode(c, Spans(c)[k], CalloutHtml)
  {
    SpansInRange(c);
    WithCalloutsNode(c, Spans(c), CalloutHtml, k);
  }

  lemma {:induction false} WithCalloutsNode(c: seq<Block>, sp: seq<Span>, render: Renderer, k: nat)
    requires Ordered(sp, |c|) && k < |sp|
    ensures 0 <= sp[k].start - RemovedBefore(sp, sp[k].start) < |WithCallouts(c, sp, render)|
    ensures WithCallouts(c, sp, render)[sp[k].start - RemovedBefore(sp, sp[k].start)] == CalloutNode(c, sp[k], render)
  {
    WithNodesAt(c, sp, render, k);
    CalloutNodesAt(c, sp, render, k);
  }

  lemma {:induction false} WithNodesAt(c: seq<Block>, sp: seq<Span>, render: Renderer, k: nat)
    requires Ordered(sp, |c|) && k < |sp|
    ensures |CalloutNodes(c, sp, render)| == |sp|
    ensures 0 <= sp[k].start - RemovedBefore(sp, sp[k].start) < |WithCallouts(c, sp, render)|
    ensures WithCallouts(c, sp, render)[sp[k].start - RemovedBefore(sp, sp[k].start)] == CalloutNodes(c, sp, render)[k]
  {
    WithCalloutsUnfold(c, sp, render);
    var nodes := CalloutNodes(c, sp, render);
    SplicedNodesFromStart(c, sp, nodes, k);
  }

  /** `SplicedNodes` from position 0. */
  lemma {:induction false} SplicedNodesFromStart<T>(c: seq<T>, sp: seq<Span>, nodes: seq<T>, k: nat)
    requires |nodes| == |sp| && Chain(sp, 0, |c|) && k < |sp|
    ensures 0 <= sp[k].start - RemovedBefore(sp, sp[k].start) < |Spliced(c, sp, nodes, 0)|
    ensures Spliced(c, sp, nodes, 0)[sp[k].start - RemovedBefore(sp, sp[k].start)] == nodes[k]
  {
    SplicedNodes(c, sp, nodes, 0, k);
    assert sp[k].start - RemovedBefore(sp, sp[k].start) == sp[k].start - 0 - RemovedBefore(sp, sp[k].start);
  }

  // ----- the scan, as a loop -----

  /**
   * The transformer's first pass: walk the children once, opening a callout
   * at an opening marker when none is open and recording a span at a closing
   * marker when one is.
   */
  method ScanSpans(ms: seq<Marker>) returns (containers: seq<Span>)
    ensures containers == SpansOf(ms)
  {
    containers := [];
    var current: ScanState := Idle;
    var index := 0;
    while index < |ms|
      invariant 0 <= index <= |ms|
      invariant (current, containers) == Scanned(ms, index)
    {
      var marker := ms[index];
      ScanAdvance(ms, index, current, containers);
      assert containers + [] == containers;
      if marker.Opening? && current.Idle? {
        current := Open(index, marker.kind, marker.title);
      } else if marker.Closing? && current.Open? {
        containers := containers + [Span(current.start, index, current.kind, current.title)];
        current := Idle;
      }
      index := index + 1;
    }
  }

  lemma {:induction false} ScanAdvance(ms: seq<Marker>, i: nat, st: ScanState, sp: seq<Span>)
    requires i < |ms| && (st, sp) == Scanned(ms, i)
    ensures Scanned(ms, i + 1) == (Step(st, i, ms[i]).0, sp + Step(st, i, ms[i]).1)
  {
  }

  // ----- the tree root, updated in place -----

  class Root {
    var children: seq<Block>

    constructor(children: seq<Block>)
      ensures this.children == children
    {
      this.children := children;
    }

    /**
     * `remarkCallout`'s transformer: scan for spans, then splice them in
     * reverse order so that every splice uses indices from the scan.
     */
    method ApplyCallouts()
      modifies this
      ensures children == Transformed(old(children))
    {
      var containers := ScanSpans(Markers(children));
      SpansInRange(children);
      SpliceSpans(containers, CalloutHtml);
    }

    /**
     * The transformer's second pass: splice the recorded spans in reverse
     * order, each span's markers and body becoming one HTML node, so that
     * the indices of the spans still to be spliced stay valid.
     */
    method SpliceSpans(containers: seq<Span>, render: Renderer)
      requires Ordered(containers, |children|)
      modifies this
      ensures children == WithCallouts(old(children), containers, render)
    {
      ghost var c := children;
      WithCalloutsUnfold(c, containers, render);
      ghost var nodes := CalloutNodes(c, containers, render);
      var k := |containers|;
      SpliceStart(c, containers, nodes);
      while k > 0
        invariant 0 <= k <= |containers|
        invariant SpliceInv(c, containers, k, nodes[k..], children)
      {
        var j := k - 1;
        var s := containers[j];
        SpliceBody(c, containers, j, k, nodes[k..], children);
        var contentNodes := children[s.start + 1..s.end];
        var htmlNode := Html(render(s.kind, s.title, contentNodes));
        NodeFromBody(c, containers, render, j, children);
        var spliced := children[..s.start] + [htmlNode] + children[s.end + 1..];
        SpliceNext(c, containers, j, k, nodes, children, htmlNode);
        children, k := spliced, j;
      }
      SpliceDone(c, containers, nodes, children);
    }
  }

  /** The node built from span `j`'s body in `cur`, which is its body in `c`, is the span's callout node. */
  lemma {:induction false} NodeFromBody(c: seq<Block>, sp: seq<Span>, render: Renderer, j: nat, cur: seq<Block>)
    requires Ordered(sp, |c|) && j < |sp|
    requires sp[j].end < |cur| && cur[sp[j].start + 1..sp[j].end] == c[sp[j].start + 1..sp[j].end]
    ensures |CalloutNodes(c, sp, render)| == |sp|
    ensures CalloutNodes(c, sp, render)[j] == Html(render(sp[j].kind, sp[j].title, cur[sp[j].start + 1..sp[j].end]))
  {
    CalloutNodesAt(c, sp, render, j);
  }

  /**
   * The reverse loop's invariant: the spans from `k` on are spliced, with
   * `nodes` in their places, and the elements before them are still the
   * original ones.
   */
  ghost predicate SpliceInv<T>(c: seq<T>, sp: seq<Span>, k: int, nodes: seq<T>, cur: seq<T>) {
    && Ordered(sp, |c|) && 0 <= k <= |sp| && |nodes| == |sp| - k
    && Chain(sp[k..], FirstStart(sp[k..], |c|), |c|)
    && cur == c[..FirstStart(sp[k..], |c|)] + Spliced(c, sp[k..], nodes, FirstStart(sp[k..], |c|))
  }

  lemma {:induction false} SpliceStart<T>(c: seq<T>, sp: seq<Span>, nodes: seq<T>)
    requires Ordered(sp, |c|) && |nodes| == |sp|
    ensures SpliceInv(c, sp, |sp|, nodes[|sp|..], c)
  {
    assert sp[|sp|..] == [];
    assert nodes[|sp|..] == [];
    assert c == c[..|c|] + c[|c|..];
  }

  /** Before splicing span `j` (`k` is `j + 1`), its body in the current elements is its body in the original ones. */
  lemma {:induction false} SpliceBody<T>(c: seq<T>, sp: seq<Span>, j: nat, k: nat, nodes: seq<T>, cur: seq<T>)
    requires k == j + 1 && k <= |sp| && SpliceInv(c, sp, k, nodes, cur)
    ensures sp[j].start < sp[j].end < |cur| && sp[j].end < |c|
    ensures cur[sp[j].start + 1..sp[j].end] == c[sp[j].start + 1..sp[j].end]
  {
    var tail := sp[j..];
    OrderedSuffix(sp, |c|, j);
    assert tail[0] == sp[j];
    OrderedChain(tail, |c|, sp[j].start);
    assert tail[1..] == sp[k..];
    SpliceStep(c, tail, [cur[0]] + nodes, cur);
  }

  /** Replacing span `j` (`k` is `j + 1`) by its node keeps the invariant. */
  lemma {:induction false} SpliceNext<T>(c: seq<T>, sp: seq<Span>, j: nat, k: nat, nodes: seq<T>, cur: seq<T>, node: T)
    requires k == j + 1 && k <= |sp| == |nodes| && SpliceInv(c, sp, k, nodes[k..], cur) && node == nodes[j]
    ensures SpliceInv(c, sp, j, nodes[j..], cur[..sp[j].start] + [node] + cur[sp[j].end + 1..])
  {
    var tail, ns := sp[j..], nodes[j..];
    OrderedSuffix(sp, |c|, j);
    assert tail[0] == sp[j] && ns[0] == nodes[j];
    OrderedChain(tail, |c|, sp[j].start);
    assert tail[1..] == sp[k..] && ns[1..] == nodes[k..];
    SpliceStep(c, tail, ns, cur);
  }

  lemma {:induction false} SpliceDone<T>(c: seq<T>, sp: seq<Span>, nodes: seq<T>, cur: seq<T>)
    requires |nodes| == |sp| && SpliceInv(c, sp, 0, nodes[0..], cur)
    ensures Chain(sp, 0, |c|) && cur == Spliced(c, sp, nodes, 0)
  {
    OrderedChain(sp, |c|, 0);
    assert sp[0..] == sp && nodes[0..] == nodes;
    SplicedGap(c, sp, nodes, 0, FirstStart(sp, |c|));
    assert c[..FirstStart(sp, |c|)] == c[0..FirstStart(sp, |c|)];
  }

  /**
   * One splice in the reverse loop: the elements before the next
   * unprocessed span are still the original ones, so the span's body and
   * position are those of the scan.
   */
  lemma {:induction false} SpliceStep<T>(c: seq<T>, sp: seq<Span>, nodes: seq<T>, cur: seq<T>)
    requires |nodes| == |sp| > 0 && Chain(sp, sp[0].start, |c|)
    requires Chain(sp[1..], FirstStart(sp[1..], |c|), |c|)
    requires cur == c[..FirstStart(sp[1..], |c|)] + Spliced(c, sp[1..], nodes[1..], FirstStart(sp[1..], |c|))
    ensures sp[0].end < |cur| && cur[sp[0].start + 1..sp[0].end] == c[sp[0].start + 1..sp[0].end]
    ensures cur[..sp[0].start] + [nodes[0]] + cur[sp[0].end + 1..]
            == c[..sp[0].start] + Spliced(c, sp, nodes, sp[0].start)
  {
    var s0, tail, n := sp[0], sp[1..], |c|;
    var p := FirstStart(tail, n);
    var rest := Spliced(c, tail, nodes[1..], p);
    var later := Spliced(c, tail, nodes[1..], s0.end + 1);
    var whole := Spliced(c, sp, nodes, s0.start);
    assert s0.start < s0.end < p <= n && later == c[s0.end + 1..p] + rest by {
      ChainStart(tail, s0.end + 1, n);
      SplicedGap(c, tail, nodes[1..], s0.end + 1, p);
    }
    assert whole == c[s0.start..s0.start] + [nodes[0]] + later by {
      SplicedUnfold(c, sp, nodes, s0.start);
    }
    SpliceAlgebra(c, p, rest, s0.start, s0.end, nodes[0], cur, later, whole);
  }

  /**
   * Replacing positions `a..b` of `c[..p] + rest`, all below `p`, by one
   * element leaves `c[..a]` followed by that element and the rest.
   */
  lemma {:induction false} SpliceAlgebra<T>(c: seq<T>, p: nat, rest: seq<T>, a: nat, b: nat, node: T, cur: seq<T>,
                         later: seq<T>, tail: seq<T>)
    requires a < b < p <= |c| && cur == c[..p] + rest
    requires later == c[b + 1..p] + rest && tail == c[a..a] + [node] + later
    ensures b < |cur| && cur[a + 1..b] == c[a + 1..b]
    ensures cur[..a] + [node] + cur[b + 1..] == c[..a] + tail
  {
    PrefixSlices(c, p, rest, a, b);
    assert c[a..a] == [];
    assert tail == [node] + later;
    SeqAssoc(c[..a], [node], later);
  }

  lemma {:induction false} SeqAssoc<T>(a: seq<T>, b: seq<T>, d: seq<T>)
    ensures a + b + d == a + (b + d)
  {
  }

  /** Slices of `c[..p] + rest` below `p` are slices of `c`. */
  lemma {:induction false} PrefixSlices<T>(c: seq<T>, p: nat, rest: seq<T>, a: nat, b: nat)
    requires a < b < p <= |c|
    ensures b < |c[..p] + rest|
    ensures (c[..p] + rest)[..a] == c[..a]
    ensures (c[..p] + rest)[a + 1..b] == c[a + 1..b]
    ensures (c[..p] + rest)[b + 1..] == c[b + 1..p] + rest
  {
  }
}
