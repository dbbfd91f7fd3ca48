/** The layout of the lazy list: positions, the viewport and the range of visible rows
    (src/plugin/src/Sleepy/Components/lazylistview.cpp:238-244, 450-583). Lengths are reals, so the comparisons with a
    tolerance in the original are exact here. */
module LazyLayout {

  datatype Record = Record(targetY: real, height: real, heightKnown: bool, isNew: bool)

  function Max(a: real, b: real): real {
    if a < b then b else a
  }

  function Min(a: real, b: real): real {
    if b < a then b else a
  }

  /** The height a row is laid out with. */
  function HeightOf(r: Record, estimate: real): real {
    if r.heightKnown then r.height else estimate
  }

  /** Where the rows before index `i` end, and whether any of them has a height. */
  function Flow(layout: seq<Record>, estimate: real, spacing: real, i: nat): (real, bool)
    requires i <= |layout|
  {
    if i == 0 then (0.0, false)
    else
      var (y, any) := Flow(layout, estimate, spacing, i - 1);
      var h := HeightOf(layout[i - 1], estimate);
      if h > 0.0 then (y + (if any then spacing else 0.0) + h, true) else (y, any)
  }

  /** Where row `i` starts: behind the rows before it and the space between, which rows without height do not get. */
  function TopOf(layout: seq<Record>, estimate: real, spacing: real, i: nat): real
    requires i < |layout|
  {
    var (y, any) := Flow(layout, estimate, spacing, i);
    if HeightOf(layout[i], estimate) > 0.0 && any then y + spacing else y
  }

  function BottomOf(r: Record, estimate: real): real {
    r.targetY + HeightOf(r, estimate)
  }

  /** Every row is where it belongs. */
  ghost predicate IsLaidOut(layout: seq<Record>, estimate: real, spacing: real) {
    forall i :: 0 <= i < |layout| ==> layout[i].targetY == TopOf(layout, estimate, spacing, i)
  }

  ghost predicate HasHeights(layout: seq<Record>, estimate: real) {
    forall i :: 0 <= i < |layout| ==> HeightOf(layout[i], estimate) >= 0.0
  }

  /** The same rows but for their positions. */
  ghost predicate SameRows(s: seq<Record>, t: seq<Record>) {
    |s| == |t| && forall i :: 0 <= i < |s| ==> t[i] == s[i].(targetY := t[i].targetY)
  }

  /** Positions do not depend on earlier positions. */
  lemma LaidOutBy(layout: seq<Record>, result: seq<Record>, estimate: real, spacing: real)
    requires SameRows(layout, result)
    requires forall i :: 0 <= i < |layout| ==> result[i].targetY == TopOf(layout, estimate, spacing, i)
    ensures IsLaidOut(result, estimate, spacing)
    ensures Flow(result, estimate, spacing, |result|) == Flow(layout, estimate, spacing, |layout|)
  {
    FlowOfSameSizes(layout, result, estimate, spacing, |layout|);
    forall i | 0 <= i < |result| ensures result[i].targetY == TopOf(result, estimate, spacing, i) {
      FlowOfSameSizes(layout, result, estimate, spacing, i);
    }
  }

  /** One pass over the rows gives every row its position and the layout its height. */
  method Relayout(layout: seq<Record>, estimate: real, spacing: real) returns (result: seq<Record>, layoutHeight: real)
    ensures SameRows(layout, result) && IsLaidOut(result, estimate, spacing)
    ensures layoutHeight == Flow(result, estimate, spacing, |result|).0
  {
    hide IsLaidOut, Flow, TopOf;
    result := layout;
    var y, hasLayoutItem := 0.0, false;
    FlowStart(layout, estimate, spacing);
    for i := 0 to |layout|
      invariant SameRows(layout, result) && (y, hasLayoutItem) == Flow(layout, estimate, spacing, i)
      invariant forall j :: 0 <= j < i ==> result[j].targetY == TopOf(layout, estimate, spacing, j)
    {
      FlowStep(layout, estimate, spacing, i);
      var layoutH := HeightOf(layout[i], estimate);
      if layoutH > 0.0 {
        if hasLayoutItem {
          y := y + spacing;
        }
        hasLayoutItem := true;
        result := result[i := result[i].(targetY := y)];
        y := y + layoutH;
      } else {
        result := result[i := result[i].(targetY := y)];
      }
    }
    layoutHeight := y;
    LaidOutBy(layout, result, estimate, spacing);
  }

  lemma FlowStart(layout: seq<Record>, estimate: real, spacing: real)
    ensures Flow(layout, estimate, spacing, 0) == (0.0, false)
  {
  }

  lemma FlowStep(layout: seq<Record>, estimate: real, spacing: real, i: nat)
    requires i < |layout|
    ensures var (y, any), h := Flow(layout, estimate, spacing, i), HeightOf(layout[i], estimate);
      && TopOf(layout, estimate, spacing, i) == (if h > 0.0 && any then y + spacing else y)
      && Flow(layout, estimate, spacing, i + 1)
         == if h > 0.0 then ((if any then y + spacing else y) + h, true) else (y, any)
  {
  }

  lemma FlowGrows(layout: seq<Record>, estimate: real, spacing: real, i: nat)
    requires i < |layout| && HasHeights(layout, estimate) && spacing >= 0.0
    ensures var top := TopOf(layout, estimate, spacing, i);
      && Flow(layout, estimate, spacing, i).0 <= top
      && 0.0 <= HeightOf(layout[i], estimate)
      && top + HeightOf(layout[i], estimate) == Flow(layout, estimate, spacing, i + 1).0
  {
  }

  /** With no negative heights or spacing, rows start and end in order, within the layout. */
  lemma {:induction false} LaidOutInOrder(layout: seq<Record>, estimate: real, spacing: real, i: nat, j: nat)
    requires i <= j < |layout| && HasHeights(layout, estimate) && spacing >= 0.0 && IsLaidOut(layout, estimate, spacing)
    ensures layout[i].targetY <= layout[j].targetY && BottomOf(layout[i], estimate) <= BottomOf(layout[j], estimate)
    ensures i < j ==> BottomOf(layout[i], estimate) <= layout[j].targetY
    ensures 0.0 <= layout[i].targetY && BottomOf(layout[j], estimate) <= Flow(layout, estimate, spacing, |layout|).0
  {
    hide Flow, TopOf, HasHeights;
    FlowGrows(layout, estimate, spacing, i);
    FlowGrows(layout, estimate, spacing, j);
    FlowInOrder(layout, estimate, spacing, 0, i);
    FlowInOrder(layout, estimate, spacing, j + 1, |layout|);
    if i < j {
      FlowInOrder(layout, estimate, spacing, i + 1, j);
    }
  }

  lemma {:induction false} FlowInOrder(layout: seq<Record>, estimate: real, spacing: real, i: nat, j: nat)
    requires i <= j <= |layout| && HasHeights(layout, estimate) && spacing >= 0.0
    ensures Flow(layout, estimate, spacing, 0).0 == 0.0
    ensures Flow(layout, estimate, spacing, i).0 <= Flow(layout, estimate, spacing, j).0
  {
    if i < j {
      FlowInOrder(layout, estimate, spacing, i, j - 1);
      FlowGrows(layout, estimate, spacing, j - 1);
    }
  }

  lemma {:induction false} FlowOverNothing(layout: seq<Record>, estimate: real, spacing: real, i: nat, j: nat)
    requires i <= j <= |layout| && forall k :: i <= k < j ==> HeightOf(layout[k], estimate) <= 0.0
    ensures Flow(layout, estimate, spacing, j) == Flow(layout, estimate, spacing, i)
  {
    if i < j {
      FlowOverNothing(layout, estimate, spacing, i, j - 1);
    }
  }

  /** The first row of any height starts at 0, and each other one with the spacing behind the one before it, whatever
      rows without height lie between; these lie at the end of the one before. */
  lemma RowsAreSpaced(layout: seq<Record>, estimate: real, spacing: real, i: nat, j: nat)
    requires IsLaidOut(layout, estimate, spacing) && i < j < |layout|
    requires forall k :: i < k < j ==> HeightOf(layout[k], estimate) <= 0.0
    ensures HeightOf(layout[i], estimate) > 0.0 ==>
      layout[j].targetY == layout[i].targetY + HeightOf(layout[i], estimate)
                           + if HeightOf(layout[j], estimate) > 0.0 then spacing else 0.0
    ensures i == 0 ==> layout[0].targetY == 0.0
    ensures i == 0 && HeightOf(layout[0], estimate) <= 0.0 ==> layout[j].targetY == 0.0
  {
    hide IsLaidOut;
    LaidOutAt(layout, estimate, spacing, i);
    LaidOutAt(layout, estimate, spacing, j);
    FlowStep(layout, estimate, spacing, i);
    FlowOverNothing(layout, estimate, spacing, i + 1, j);
  }

  /** The layout ends where its last row of any height does. */
  lemma LayoutEnds(layout: seq<Record>, estimate: real, spacing: real, i: nat)
    requires IsLaidOut(layout, estimate, spacing) && i < |layout|
    requires HeightOf(layout[i], estimate) > 0.0
      && forall k :: i < k < |layout| ==> HeightOf(layout[k], estimate) <= 0.0
    ensures Flow(layout, estimate, spacing, |layout|).0 == layout[i].targetY + HeightOf(layout[i], estimate)
  {
    hide IsLaidOut;
    LaidOutAt(layout, estimate, spacing, i);
    FlowStep(layout, estimate, spacing, i);
    FlowOverNothing(layout, estimate, spacing, i + 1, |layout|);
  }

  lemma LaidOutAt(layout: seq<Record>, estimate: real, spacing: real, i: nat)
    requires IsLaidOut(layout, estimate, spacing) && i < |layout|
    ensures layout[i].targetY == TopOf(layout, estimate, spacing, i)
  {
  }

  // --- The viewport ---

  datatype Rect = Rect(y: real, width: real, height: real)

  predicate IsEmpty(r: Rect) {
    r.width <= 0.0 || r.height <= 0.0
  }

  /** The visible area: the view's own is pulled back over the content, both are widened by the cache buffer and cut
      to the content. */
  function EffectiveViewport(custom: bool, viewport: Rect, contentY: real, width: real, height: real,
                             cacheBuffer: real, layoutHeight: real): Rect
  {
    var vp := if custom then viewport else PulledBack(Rect(contentY, width, height), layoutHeight);
    var buffered := Rect(vp.y - cacheBuffer, vp.width, vp.height + cacheBuffer + cacheBuffer);
    if layoutHeight > 0.0 then
      var top, bottom := Max(buffered.y, 0.0), Min(buffered.y + buffered.height, layoutHeight);
      if top < bottom then Rect(top, vp.width, bottom - top) else Rect(0.0, 0.0, 0.0)
    else buffered
  }

  function PulledBack(vp: Rect, layoutHeight: real): Rect {
    if layoutHeight > 0.0 then
      var top, bottom := Min(vp.y, layoutHeight), Max(vp.y + vp.height, 0.0);
      if bottom > top then Rect(top, vp.width, bottom - top) else vp
    else vp
  }

  /** A viewport that is not empty lies within the content. */
  lemma ViewportWithinContent(custom: bool, viewport: Rect, contentY: real, width: real, height: real,
                              cacheBuffer: real, layoutHeight: real)
    requires layoutHeight > 0.0
    ensures var vp := EffectiveViewport(custom, viewport, contentY, width, height, cacheBuffer, layoutHeight);
      !IsEmpty(vp) ==> 0.0 <= vp.y && vp.y + vp.height <= layoutHeight
  {
  }

  /** What is seen, point by point: the view and the cache buffer around it, as far as there is content. A view of one's
      own counts from the edge of the content if it is scrolled past it. */
  lemma SeesPoint(custom: bool, viewport: Rect, contentY: real, width: real, height: real, cacheBuffer: real,
                  layoutHeight: real, y: real)
    requires layoutHeight > 0.0 && 0.0 <= y <= layoutHeight && cacheBuffer >= 0.0 && height > 0.0
    ensures var vp := EffectiveViewport(custom, viewport, contentY, width, height, cacheBuffer, layoutHeight);
      && (custom && !IsEmpty(vp) ==>
          (vp.y <= y <= vp.y + vp.height
           <==> viewport.y - cacheBuffer <= y <= viewport.y + viewport.height + cacheBuffer))
      && (!custom && !IsEmpty(vp) && contentY <= layoutHeight && contentY + height >= 0.0 ==>
          (vp.y <= y <= vp.y + vp.height <==> contentY - cacheBuffer <= y <= contentY + height + cacheBuffer))
      && (!custom && !IsEmpty(vp) && contentY > layoutHeight ==>
          (vp.y <= y <= vp.y + vp.height <==> y >= layoutHeight - cacheBuffer))
      && (!custom && !IsEmpty(vp) && contentY + height < 0.0 ==>
          (vp.y <= y <= vp.y + vp.height <==> y <= cacheBuffer))
  {
  }

  /** And nothing is seen exactly if none of this has any width and height. */
  lemma SeesNothingIff(custom: bool, viewport: Rect, contentY: real, width: real, height: real, cacheBuffer: real,
                       layoutHeight: real)
    requires layoutHeight > 0.0 && cacheBuffer >= 0.0 && height > 0.0
    ensures var vp := EffectiveViewport(custom, viewport, contentY, width, height, cacheBuffer, layoutHeight);
      && (custom ==> (!IsEmpty(vp) <==>
          && viewport.width > 0.0 && viewport.height + cacheBuffer + cacheBuffer > 0.0
          && viewport.y - cacheBuffer < layoutHeight && viewport.y + viewport.height + cacheBuffer > 0.0))
      && (!custom ==> (!IsEmpty(vp) <==>
          width > 0.0 && (cacheBuffer > 0.0 || (contentY < layoutHeight && contentY + height > 0.0))))
      && (!IsEmpty(vp) ==> vp.width == if custom then viewport.width else width)
  {
  }

  /** Without any content, the view with its cache buffer. */
  lemma SeesAllOfNothing(custom: bool, viewport: Rect, contentY: real, width: real, height: real, cacheBuffer: real,
                         layoutHeight: real)
    requires layoutHeight <= 0.0
    ensures var view := if custom then viewport else Rect(contentY, width, height);
      EffectiveViewport(custom, viewport, contentY, width, height, cacheBuffer, layoutHeight)
      == Rect(view.y - cacheBuffer, view.width, view.height + 2.0 * cacheBuffer)
  {
  }

  /** Inputs: the first 100 of 1000 without a cache buffer, and a viewport of 600 with one of 400. */
  lemma SightsOfViews()
    ensures EffectiveViewport(false, Rect(0.0, 0.0, 0.0), 0.0, 100.0, 100.0, 0.0, 1000.0) == Rect(0.0, 100.0, 100.0)
    ensures EffectiveViewport(true, Rect(0.0, 100.0, 600.0), 0.0, 0.0, 0.0, 400.0, 2000.0) == Rect(0.0, 100.0, 1000.0)
  {
  }

  /** A view scrolled entirely past the content sees some of it only thanks to the cache buffer: pulling it back brings
      it to the edge of the content, no further. */
  lemma SeesContentIff(viewport: Rect, contentY: real, width: real, height: real, cacheBuffer: real, layoutHeight: real)
    requires layoutHeight > 0.0 && width > 0.0 && height > 0.0 && cacheBuffer >= 0.0
    ensures !IsEmpty(EffectiveViewport(false, viewport, contentY, width, height, cacheBuffer, layoutHeight))
       <==> cacheBuffer > 0.0 || (contentY < layoutHeight && contentY + height > 0.0)
  {
  }

  /** An input: a view of 100 by 100, scrolled past content of the same height, without a cache buffer. */
  lemma PastTheContent()
    ensures IsEmpty(EffectiveViewport(false, Rect(0.0, 0.0, 0.0), 150.0, 100.0, 100.0, 0.0, 100.0))
  {
    SeesContentIff(Rect(0.0, 0.0, 0.0), 150.0, 100.0, 100.0, 0.0, 100.0);
  }

  // --- The visible range ---

  /** Row `i` meets the viewport. */
  predicate Meets(layout: seq<Record>, estimate: real, vp: Rect, i: nat)
    requires i < |layout|
  {
    BottomOf(layout[i], estimate) >= vp.y && layout[i].targetY <= vp.y + vp.height
  }

  /** The first row from `i` on that does not end above the viewport, found row by row. */
  function FirstFrom(layout: seq<Record>, estimate: real, vp: Rect, i: nat): (r: nat)
    requires i <= |layout|
    ensures i <= r <= |layout|
    ensures forall k :: i <= k < r ==> BottomOf(layout[k], estimate) < vp.y
    ensures r < |layout| ==> BottomOf(layout[r], estimate) >= vp.y
    decreases |layout| - i
  {
    if i == |layout| || BottomOf(layout[i], estimate) >= vp.y then i else FirstFrom(layout, estimate, vp, i + 1)
  }

  /** The rows end in order. */
  ghost predicate BottomsInOrder(layout: seq<Record>, estimate: real) {
    forall i, j :: 0 <= i <= j < |layout| ==> BottomOf(layout[i], estimate) <= BottomOf(layout[j], estimate)
  }

  /** From its first row on, the range goes as far as rows start before the viewport ends. */
  ghost predicate IsRun(layout: seq<Record>, vp: Rect, first: int, last: int) {
    var bottom := vp.y + vp.height;
    && 0 <= first <= last < |layout|
    && (forall k :: first < k <= last ==> layout[k].targetY <= bottom)
    && (layout[first].targetY <= bottom ==> last + 1 < |layout| ==> layout[last + 1].targetY > bottom)
    && (layout[first].targetY > bottom ==> last == first)
  }

  method ComputeVisibleRange(layout: seq<Record>, estimate: real, vp: Rect) returns (first: int, last: int)
    ensures (first == -1 && last == -1) || IsRun(layout, vp, first, last)
    ensures BottomsInOrder(layout, estimate) ==>
      var found := FirstFrom(layout, estimate, vp, 0);
      if IsEmpty(vp) || found == |layout| then first == -1 && last == -1
      else first == found && IsRun(layout, vp, first, last)
  {
    if layout == [] {
      return -1, -1;
    }
    if IsEmpty(vp) {
      return -1, -1;
    }
    var vpTop, vpBottom := vp.y, vp.y + vp.height;
    var lo, hi := 0, |layout| - 1;
    first := |layout|;
    while lo <= hi
      invariant 0 <= lo <= |layout| && -1 <= hi < |layout| && lo <= hi + 1 && hi < first <= |layout|
      invariant BottomsInOrder(layout, estimate) ==> forall k :: 0 <= k < lo ==> BottomOf(layout[k], estimate) < vpTop
      invariant first < |layout| ==> BottomOf(layout[first], estimate) >= vpTop && first == hi + 1
      invariant first == |layout| ==> hi == |layout| - 1
    {
      var mid := lo + (hi - lo) / 2;
      var itemBottom := BottomOf(layout[mid], estimate);
      if itemBottom >= vpTop {
        first := mid;
        hi := mid - 1;
      } else {
        lo := mid + 1;
      }
    }
    if first >= |layout| {
      return -1, -1;
    }
    last := first;
    var i := first;
    while i < |layout|
      invariant first <= i <= |layout| && first <= last < |layout| && last == (if i == first then first else i - 1)
      invariant forall k :: first <= k < i ==> layout[k].targetY <= vpBottom
    {
      if layout[i].targetY > vpBottom {
        break;
      }
      last := i;
      i := i + 1;
    }
  }

  /** The range holds every row that meets the viewport, and only such rows but perhaps for its first one; that one is
      below the viewport exactly if no row meets it. */
  lemma RangeIsExact(layout: seq<Record>, estimate: real, spacing: real, vp: Rect, first: int, last: int, k: nat)
    requires HasHeights(layout, estimate) && spacing >= 0.0 && IsLaidOut(layout, estimate, spacing) && k < |layout|
    requires first == FirstFrom(layout, estimate, vp, 0) && IsRun(layout, vp, first, last)
    ensures Meets(layout, estimate, vp, k) ==> first <= k <= last
    ensures first < k <= last ==> Meets(layout, estimate, vp, k)
    ensures !Meets(layout, estimate, vp, first) <==> layout[first].targetY > vp.y + vp.height
    ensures !Meets(layout, estimate, vp, first) ==> !Meets(layout, estimate, vp, k)
  {
    hide Flow, TopOf, HasHeights, IsLaidOut, HeightOf;
    if k <= first {
      LaidOutInOrder(layout, estimate, spacing, k, first);
    } else {
      LaidOutInOrder(layout, estimate, spacing, first, k);
      if last + 1 <= k {
        LaidOutInOrder(layout, estimate, spacing, last + 1, k);
      }
    }
  }

  lemma OrderOfBottoms(layout: seq<Record>, estimate: real, spacing: real)
    requires HasHeights(layout, estimate) && spacing >= 0.0 && IsLaidOut(layout, estimate, spacing)
    ensures BottomsInOrder(layout, estimate)
  {
    forall i, j | 0 <= i <= j < |layout| ensures BottomOf(layout[i], estimate) <= BottomOf(layout[j], estimate) {
      LaidOutInOrder(layout, estimate, spacing, i, j);
    }
  }

  // --- Rows in sight ---

  /** A view of some size overlaps the content. */
  predicate LooksAt(view: Rect, cacheBuffer: real, layoutHeight: real) {
    view.width > 0.0 && view.height > 0.0 && cacheBuffer >= 0.0 && view.y < layoutHeight && view.y + view.height > 0.0
  }

  /** A row that reaches into the view or touches it meets what counts as visible. */
  lemma InSight(layout: seq<Record>, estimate: real, spacing: real, custom: bool, viewport: Rect, contentY: real,
                width: real, height: real, cacheBuffer: real, i: nat)
    requires HasHeights(layout, estimate) && spacing >= 0.0 && IsLaidOut(layout, estimate, spacing) && i < |layout|
    ensures var (view, full) := (if custom then viewport else Rect(contentY, width, height),
                                 Flow(layout, estimate, spacing, |layout|).0);
      var vp := EffectiveViewport(custom, viewport, contentY, width, height, cacheBuffer, full);
      LooksAt(view, cacheBuffer, full) ==>
        !IsEmpty(vp) && (BottomOf(layout[i], estimate) >= view.y && layout[i].targetY <= view.y + view.height ==>
                         Meets(layout, estimate, vp, i))
  {
    hide Flow, IsLaidOut, HasHeights, BottomOf;
    LaidOutInOrder(layout, estimate, spacing, i, i);
    HeightsAre(layout, estimate, i);
  }

  lemma HeightsAre(layout: seq<Record>, estimate: real, i: nat)
    requires HasHeights(layout, estimate) && i < |layout|
    ensures BottomOf(layout[i], estimate) >= layout[i].targetY
  {
  }

  // --- The content height ---

  /** The layout with the heights of delegates as they are shown now. */
  function Shown(layout: seq<Record>, heights: map<nat, real>): (r: seq<Record>)
    ensures |r| == |layout|
  {
    seq(|layout|, i requires 0 <= i < |layout| =>
      if i in heights then layout[i].(height := heights[i], heightKnown := true) else layout[i])
  }

  /** Where the lowest of some dying items of any height ends, but no higher than `y`. */
  function Lowest(y: real, dying: seq<(real, real)>): (r: real)
    ensures r >= y && forall i :: 0 <= i < |dying| && dying[i].1 > 0.0 ==> r >= dying[i].0 + dying[i].1
    ensures r == y || exists i :: 0 <= i < |dying| && dying[i].1 > 0.0 && r == dying[i].0 + dying[i].1
  {
    if dying == [] then y
    else
      var n := |dying| - 1;
      var rest := Lowest(y, dying[..n]);
      if dying[n].1 > 0.0 then Max(rest, dying[n].0 + dying[n].1) else rest
  }

  /** One pass over the rows as shown, and one over the items that are being removed. */
  method ContentHeight(layout: seq<Record>, heights: map<nat, real>, estimate: real, spacing: real,
                       dying: seq<(real, real)>)
    returns (visY: real)
    ensures visY == Lowest(Flow(Shown(layout, heights), estimate, spacing, |layout|).0, dying)
  {
    hide Flow, TopOf, Lowest;
    ghost var shown := Shown(layout, heights);
    var hasVisItem := false;
    visY := 0.0;
    FlowStart(shown, estimate, spacing);
    for i := 0 to |layout|
      invariant (visY, hasVisItem) == Flow(shown, estimate, spacing, i)
    {
      FlowStep(shown, estimate, spacing, i);
      var h := if i in heights then heights[i] else HeightOf(layout[i], estimate);
      if h > 0.0 {
        if hasVisItem {
          visY := visY + spacing;
        }
        hasVisItem := true;
        visY := visY + h;
      }
    }
    ghost var rows := visY;
    LowestOfNone(rows);
    for i := 0 to |dying|
      invariant visY == Lowest(rows, dying[..i])
    {
      LowestOneMore(rows, dying, i);
      if dying[i].1 > 0.0 {
        visY := Max(visY, dying[i].0 + dying[i].1);
      }
    }
    assert dying[..|dying|] == dying;
  }

  lemma LowestOfNone(y: real)
    ensures Lowest(y, []) == y
  {
  }

  lemma LowestOneMore(y: real, dying: seq<(real, real)>, i: nat)
    requires i < |dying|
    ensures var rest := Lowest(y, dying[..i]);
      Lowest(y, dying[..i + 1]) == if dying[i].1 > 0.0 then Max(rest, dying[i].0 + dying[i].1) else rest
  {
    assert dying[..i + 1][..i] == dying[..i];
  }

  /** With everything shown at its own height and nothing being removed, the content is as high as the layout. */
  lemma ContentIsLayout(layout: seq<Record>, heights: map<nat, real>, estimate: real, spacing: real)
    requires forall i :: i in heights && i < |layout| ==> heights[i] == HeightOf(layout[i], estimate)
    ensures Lowest(Flow(Shown(layout, heights), estimate, spacing, |layout|).0, [])
      == Flow(layout, estimate, spacing, |layout|).0
  {
    FlowOfSameSizes(layout, Shown(layout, heights), estimate, spacing, |layout|);
  }

  lemma {:induction false} FlowOfSameSizes(s: seq<Record>, t: seq<Record>, estimate: real, spacing: real, i: nat)
    requires |s| == |t| && i <= |s| && forall k :: 0 <= k < |s| ==> HeightOf(t[k], estimate) == HeightOf(s[k], estimate)
    ensures Flow(s, estimate, spacing, i) == Flow(t, estimate, spacing, i)
  {
    if i > 0 {
      FlowOfSameSizes(s, t, estimate, spacing, i - 1);
    }
  }
}
