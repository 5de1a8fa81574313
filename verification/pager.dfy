/** The scroll arithmetic of the transcript pager: the content area inside
    the frame, the scroll keys, the "scrolled to bottom" test, and bringing
    a chunk into view. Each chunk is known by the height it wants at the
    current width. */
module Pager {
  import opened Wrappers
  import opened Bounded

  datatype Rect = Rect(x: u16, y: u16, width: u16, height: u16)

  /** The state of a `PagerView` that scrolling reads and writes. */
  datatype PagerView = PagerView(
    heights: seq<u16>,
    scrollOffset: usize,
    lastContentHeight: Option<usize>,
    lastRenderedHeight: Option<usize>,
    pendingScrollChunk: Option<nat>)

  /** The rows above chunk `idx`. */
  function ChunkStart(heights: seq<u16>, idx: nat): nat
    requires idx <= |heights|
  {
    if idx == 0 then 0 else ChunkStart(heights, idx - 1) + heights[idx - 1]
  }

  function ContentHeight(heights: seq<u16>): nat {
    ChunkStart(heights, |heights|)
  }

  /** Chunks start no lower than the ones before them and end within the
      content. */
  lemma ChunkStartMonotone(heights: seq<u16>, i: nat, j: nat)
    requires i <= j <= |heights|
    ensures ChunkStart(heights, i) <= ChunkStart(heights, j)
    ensures j < |heights| ==> ChunkStart(heights, j) + heights[j] <= ContentHeight(heights)
  {
    ChunkStartGrows(heights, i, j);
    if j < |heights| {
      ChunkStartGrows(heights, j + 1, |heights|);
    }
  }

  lemma {:induction false} ChunkStartGrows(heights: seq<u16>, i: nat, j: nat)
    requires i <= j <= |heights|
    ensures ChunkStart(heights, i) <= ChunkStart(heights, j)
    decreases j
  {
    if i < j {
      ChunkStartGrows(heights, i, j - 1);
    }
  }

  // ---------------------------------------------------------------------
  // Areas and keys
  // ---------------------------------------------------------------------

  /** `content_area`: the frame less the header row above and the bottom
      bar below. */
  function ContentArea(area: Rect): (r: Rect)
    ensures r.x == area.x && r.width == area.width
    ensures area.y < U16_MAX ==> r.y == area.y + 1
    ensures area.height >= 2 ==> r.height == area.height - 2
    ensures area.height < 2 ==> r.height == 0
  {
    area.(y := SatAdd16(area.y, 1), height := SatSub16(area.height, 2))
  }

  /** Away from the top of the coordinate range the content area sits
      strictly inside the frame, one row in from each edge. */
  lemma ContentAreaInsideFrame(area: Rect)
    requires area.y < U16_MAX && area.height >= 2
    ensures ContentArea(area).y == area.y + 1
    ensures ContentArea(area).y + ContentArea(area).height + 1 == area.y + area.height
  {
  }

  /** `page_height`: the last rendered content height, else the content
      area of the viewport. */
  function PageHeight(v: PagerView, viewport: Rect): (r: usize)
    ensures v.lastContentHeight.Some? ==> r == v.lastContentHeight.value
    ensures v.lastContentHeight.None? ==> r == ContentArea(viewport).height
  {
    v.lastContentHeight.GetOr(ContentArea(viewport).height)
  }

  datatype ScrollKey = Up | Down | PageUp | PageDown | HalfPageDown | HalfPageUp | Home | End

  /** Half a content area, rounded up. */
  function HalfPage(viewport: Rect): (r: usize)
    ensures var h := ContentArea(viewport).height as int; r * 2 == h || r * 2 == h + 1
  {
    SatAddUsize(ContentArea(viewport).height, 1) / 2
  }

  /** The scroll-offset update of `handle_key_event`; other keys are
      ignored. */
  function ScrollBy(offset: usize, key: ScrollKey, page: usize, half: usize): (r: usize)
    ensures key == Home ==> r == 0
    ensures key == End ==> r == USIZE_MAX
    ensures key == Up ==> r == Max(offset - 1, 0)
    ensures key == Down ==> r == Min(offset + 1, USIZE_MAX)
    ensures key == PageUp ==> r == Max(offset - page, 0)
    ensures key == PageDown ==> r == Min(offset + page, USIZE_MAX)
    ensures key == HalfPageUp ==> r == Max(offset - half, 0)
    ensures key == HalfPageDown ==> r == Min(offset + half, USIZE_MAX)
  {
    match key
    case Up => SatSubUsize(offset, 1)
    case Down => SatAddUsize(offset, 1)
    case PageUp => SatSubUsize(offset, page)
    case PageDown => SatAddUsize(offset, page)
    case HalfPageUp => SatSubUsize(offset, half)
    case HalfPageDown => SatAddUsize(offset, half)
    case Home => 0
    case End => USIZE_MAX
  }

  function HandleKey(v: PagerView, viewport: Rect, key: ScrollKey): (r: PagerView)
    ensures r == v.(scrollOffset := r.scrollOffset)
  {
    v.(scrollOffset := ScrollBy(v.scrollOffset, key, PageHeight(v, viewport), HalfPage(viewport)))
  }

  /** Moving down and back up by the same amount returns to the same
      offset unless the first move saturated, and the reverse. */
  lemma ScrollKeysUndo(offset: usize, page: usize, half: usize)
    ensures offset + page <= USIZE_MAX ==>
              ScrollBy(ScrollBy(offset, PageDown, page, half), PageUp, page, half) == offset
    ensures offset >= page ==>
              ScrollBy(ScrollBy(offset, PageUp, page, half), PageDown, page, half) == offset
    ensures offset < USIZE_MAX ==> ScrollBy(ScrollBy(offset, Down, page, half), Up, page, half) == offset
    ensures offset > 0 ==> ScrollBy(ScrollBy(offset, Up, page, half), Down, page, half) == offset
    ensures offset + half <= USIZE_MAX ==>
              ScrollBy(ScrollBy(offset, HalfPageDown, page, half), HalfPageUp, page, half) == offset
  {
  }

  // ---------------------------------------------------------------------
  // Bottom detection and rendering
  // ---------------------------------------------------------------------

  /** `is_scrolled_to_bottom`. */
  function IsScrolledToBottom(v: PagerView): (r: bool)
    ensures v.scrollOffset == USIZE_MAX ==> r
    ensures v.scrollOffset < USIZE_MAX && v.lastContentHeight.None? ==> !r
    ensures v.lastContentHeight.Some? && |v.heights| > 0 && v.lastRenderedHeight.Some? ==>
              (r <==> v.scrollOffset == USIZE_MAX ||
                      v.scrollOffset + v.lastContentHeight.value >= v.lastRenderedHeight.value)
  {
    if v.scrollOffset == USIZE_MAX then true
    else match v.lastContentHeight
      case None => false
      case Some(height) =>
        if |v.heights| == 0 then true
        else match v.lastRenderedHeight
          case None => false
          case Some(total) =>
            if total <= height then true
            else v.scrollOffset >= SatSubUsize(total, height)
  }

  /** The offset clamp applied on every render: no further than the last
      full page. */
  function ClampScroll(offset: usize, total: nat, height: usize): (r: usize)
    ensures r <= offset
    ensures r + height >= total || r == offset
    ensures total <= height ==> r == 0
  {
    Min(offset, if total >= height then total - height else 0)
  }

  /** The state changes of `PagerView::render` (drawing is not modelled):
      remember the heights, satisfy a pending scroll request with the
      source's `ensure_chunk_visible`, clamp. */
  function Render(v: PagerView, area: Rect): (r: PagerView)
    requires ContentHeight(v.heights) <= USIZE_MAX
    ensures r.lastContentHeight == Some(ContentArea(area).height)
    ensures r.lastRenderedHeight == Some(ContentHeight(v.heights))
    ensures r.pendingScrollChunk.None? && r.heights == v.heights
    ensures v.pendingScrollChunk.None? ==>
              r.scrollOffset == ClampScroll(v.scrollOffset, ContentHeight(v.heights),
                                            ContentArea(area).height)
    ensures v.pendingScrollChunk.Some? ==>
              r.scrollOffset ==
              ClampScroll(EnsureChunkVisibleAsWritten(v.heights, v.scrollOffset,
                                                      v.pendingScrollChunk.value,
                                                      ContentArea(area).height),
                          ContentHeight(v.heights), ContentArea(area).height)
  {
    var h := ContentArea(area).height;
    Settle(v, area, if v.pendingScrollChunk.Some?
                    then EnsureChunkVisibleAsWritten(v.heights, v.scrollOffset,
                                                     v.pendingScrollChunk.value, h)
                    else v.scrollOffset)
  }

  /** `render` with the corrected `EnsureChunkVisible` in place of the
      source's. */
  function RenderIntended(v: PagerView, area: Rect): (r: PagerView)
    requires ContentHeight(v.heights) <= USIZE_MAX
    ensures r.lastContentHeight == Some(ContentArea(area).height)
    ensures r.lastRenderedHeight == Some(ContentHeight(v.heights))
    ensures r.pendingScrollChunk.None? && r.heights == v.heights
    ensures v.pendingScrollChunk.None? ==> r == Render(v, area)
    ensures v.pendingScrollChunk.Some? ==>
              r.scrollOffset ==
              ClampScroll(EnsureChunkVisible(v.heights, v.scrollOffset, v.pendingScrollChunk.value,
                                             ContentArea(area).height),
                          ContentHeight(v.heights), ContentArea(area).height)
  {
    var h := ContentArea(area).height;
    Settle(v, area, if v.pendingScrollChunk.Some?
                    then EnsureChunkVisible(v.heights, v.scrollOffset, v.pendingScrollChunk.value, h)
                    else v.scrollOffset)
  }

  /** The part of a render after the pending request: record the heights
      and clamp the chosen offset. */
  function Settle(v: PagerView, area: Rect, offset: usize): PagerView
    requires ContentHeight(v.heights) <= USIZE_MAX
  {
    var content := ContentArea(area);
    var total := ContentHeight(v.heights);
    PagerView(v.heights, ClampScroll(offset, total, content.height), Some(content.height),
              Some(total), None)
  }

  /** After the End key and a render the view still counts as scrolled to
      the bottom, although the clamp has pulled the offset back to the
      last full page. */
  lemma EndThenRenderIsAtBottom(v: PagerView, viewport: Rect, area: Rect)
    requires ContentHeight(v.heights) <= USIZE_MAX
    requires v.pendingScrollChunk.None?
    ensures IsScrolledToBottom(HandleKey(v, viewport, End))
    ensures IsScrolledToBottom(Render(HandleKey(v, viewport, End), area))
  {
  }

  // ---------------------------------------------------------------------
  // Bringing a chunk into view
  // ---------------------------------------------------------------------

  /** The rows `[top, top + height)` show all of chunk `idx`. */
  predicate ChunkVisible(heights: seq<u16>, idx: nat, top: nat, height: nat)
    requires idx < |heights|
  {
    top <= ChunkStart(heights, idx) && ChunkStart(heights, idx) + heights[idx] <= top + height
  }

  /** `PagerView::ensure_chunk_visible` as written: when the chunk ends
      below the view it scrolls to `last - (height - 1)`, where `last` is
      one past the chunk's final row. */
  function EnsureChunkVisibleAsWritten(heights: seq<u16>, offset: usize, idx: nat, height: u16)
    : (r: usize)
    requires ContentHeight(heights) <= USIZE_MAX
    ensures height == 0 || idx >= |heights| ==> r == offset
    ensures height > 0 && idx < |heights| && ChunkStart(heights, idx) < offset ==>
              r == ChunkStart(heights, idx)
    ensures height > 0 && idx < |heights| && heights[idx] < height ==>
              ChunkVisible(heights, idx, r, height)
    ensures height > 0 && idx < |heights| && offset <= ChunkStart(heights, idx) &&
            ChunkStart(heights, idx) + heights[idx] < offset + height ==>
              r == offset
    ensures height > 0 && idx < |heights| && offset <= ChunkStart(heights, idx) &&
            ChunkStart(heights, idx) + heights[idx] > Min(offset + height - 1, USIZE_MAX) ==>
              r == ChunkStart(heights, idx) + heights[idx]
                   - Min(ChunkStart(heights, idx) + heights[idx], height - 1)
  {
    if height == 0 || idx >= |heights| then offset
    else
      ChunkStartMonotone(heights, idx, idx);
      var first := ChunkStart(heights, idx);
      var last := first + heights[idx];
      var bottom := SatAddUsize(offset, height - 1);
      if first < offset then first
      else if last > bottom then last - Min(last, height - 1)
      else offset
  }

  /** A chunk exactly as tall as the view, already fully shown, is
      scrolled so that its first row is hidden, and the render clamp does
      not undo it; the corrected render leaves the view at the top. */
  lemma AsWrittenHidesTopRow()
    ensures ContentHeight([3, 5]) == 8
    ensures EnsureChunkVisibleAsWritten([3, 5], 0, 0, 3) == 1
    ensures ChunkVisible([3, 5], 0, 0, 3)
    ensures ClampScroll(1, ContentHeight([3, 5]), 3) == 1
    ensures !ChunkVisible([3, 5], 0, 1, 3)
    ensures Render(PagerView([3, 5], 0, None, None, Some(0)), Rect(0, 0, 10, 5)).scrollOffset == 1
    ensures RenderIntended(PagerView([3, 5], 0, None, None, Some(0)), Rect(0, 0, 10, 5)).scrollOffset
            == 0
  {
    assert ContentArea(Rect(0, 0, 10, 5)).height == 3;
  }

  /** `ensure_chunk_visible` with the bottom case scrolling to
      `last - height`, as the swarm overlay's copy of it does
      (`shift.min(last)` is the same value). */
  function EnsureChunkVisible(heights: seq<u16>, offset: usize, idx: nat, height: u16)
    : (r: usize)
    requires ContentHeight(heights) <= USIZE_MAX
    ensures height == 0 || idx >= |heights| ==> r == offset
    ensures height > 0 && idx < |heights| && heights[idx] <= height ==>
              ChunkVisible(heights, idx, r, height)
    ensures height > 0 && idx < |heights| && ChunkVisible(heights, idx, offset, height) ==>
              r == offset
    ensures height > 0 && idx < |heights| ==>
              r <= ChunkStart(heights, idx) + heights[idx]
  {
    if height == 0 || idx >= |heights| then offset
    else
      ChunkStartMonotone(heights, idx, idx);
      var first := ChunkStart(heights, idx);
      var last := first + heights[idx];
      var bottom := SatAddUsize(offset, height - 1);
      if first < offset then first
      else if last > bottom then Min(SatSubUsize(last, height), last)
      else offset
  }

  /** The render clamp keeps a chunk that fits in view: it only moves the
      offset back to the last full page, which still holds the chunk. */
  lemma ClampKeepsChunkVisible(heights: seq<u16>, idx: nat, top: usize, height: u16)
    requires idx < |heights|
    requires ContentHeight(heights) <= USIZE_MAX
    requires ChunkVisible(heights, idx, top, height)
    ensures ChunkVisible(heights, idx, ClampScroll(top, ContentHeight(heights), height), height)
  {
    ChunkStartMonotone(heights, idx, idx);
  }

  /** A pending request for a chunk strictly shorter than the content
      area is shown after the source's render; one exactly as tall may lose
      its first row (`AsWrittenHidesTopRow`). */
  lemma RenderShowsPendingChunk(v: PagerView, area: Rect)
    requires ContentHeight(v.heights) <= USIZE_MAX
    requires v.pendingScrollChunk.Some? && v.pendingScrollChunk.value < |v.heights|
    requires v.heights[v.pendingScrollChunk.value] < ContentArea(area).height
    ensures ChunkVisible(v.heights, v.pendingScrollChunk.value, Render(v, area).scrollOffset,
                         ContentArea(area).height)
  {
    var idx := v.pendingScrollChunk.value;
    var h := ContentArea(area).height;
    ClampKeepsChunkVisible(v.heights, idx,
                           EnsureChunkVisibleAsWritten(v.heights, v.scrollOffset, idx, h), h);
  }

  /** With the corrected function, every pending chunk that fits in the
      content area is shown after the render. */
  lemma RenderIntendedShowsPendingChunk(v: PagerView, area: Rect)
    requires ContentHeight(v.heights) <= USIZE_MAX
    requires v.pendingScrollChunk.Some? && v.pendingScrollChunk.value < |v.heights|
    requires 0 < ContentArea(area).height
    requires v.heights[v.pendingScrollChunk.value] <= ContentArea(area).height
    ensures ChunkVisible(v.heights, v.pendingScrollChunk.value,
                         RenderIntended(v, area).scrollOffset, ContentArea(area).height)
  {
    var idx := v.pendingScrollChunk.value;
    var h := ContentArea(area).height;
    ClampKeepsChunkVisible(v.heights, idx, EnsureChunkVisible(v.heights, v.scrollOffset, idx, h), h);
  }

  /** The source's two tests: the third chunk of heights 1, 3, 3 in a
      six-row area is brought down into view, and scrolling back up to the
      first chunk returns to the top. */
  lemma SourceExamples()
    ensures ContentHeight([1, 3, 3]) == 7 && ContentHeight([2, 3, 3]) == 8
    ensures ChunkVisible([1, 3, 3], 2, EnsureChunkVisibleAsWritten([1, 3, 3], 0, 2, 6), 6)
    ensures EnsureChunkVisibleAsWritten([2, 3, 3], 6, 0, 3) == 0
  {
  }
}
