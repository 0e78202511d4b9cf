/** The legend above the timelines (utils/grid.py:493-590): one pass computes the height,
    a second one draws, and both wrap the items into rows in the same way. */
module Legend {

  /** The size of a legend's text as the drawing surface reports it. */
  datatype Extent = Extent(width: real, height: real)

  datatype Box = Box(x: real, y: real, width: real, height: real)
  {
    predicate Overlaps(b: Box) {
      x < b.x + b.width && b.x < x + width && y < b.y + b.height && b.y < y + height
    }

    predicate Inside(b: Box) {
      b.x <= x && x + width <= b.x + b.width && b.y <= y && y + height <= b.y + b.height
    }
  }

  /** What `draw` puts down for one legend: a square, and a text. */
  datatype Drawn = Drawn(marker: Box, text: Box)

  /** The variables of both loops. */
  datatype Pen = Pen(lineHeight: real, totalHeight: real, lineUsed: real)

  ghost predicate NonNegative(exts: seq<Extent>) {
    forall i | 0 <= i < |exts| :: exts[i].width >= 0.0 && exts[i].height >= 0.0
  }

  function ItemWidth(padding: real, e: Extent): real {
    padding + padding + e.width + padding
  }

  function ItemHeight(padding: real, e: Extent): real {
    e.height + padding
  }

  /** One turn of either loop. The line height is the largest so far, over all rows. */
  function Advance(padding: real, width: real, pen: Pen, e: Extent): Pen {
    var lineHeight := if ItemHeight(padding, e) > pen.lineHeight then ItemHeight(padding, e) else pen.lineHeight;
    if pen.lineUsed + ItemWidth(padding, e) > width then
      Pen(lineHeight, pen.totalHeight + lineHeight, padding + ItemWidth(padding, e))
    else
      Pen(lineHeight, pen.totalHeight, pen.lineUsed + ItemWidth(padding, e))
  }

  function PenAfter(padding: real, width: real, exts: seq<Extent>, n: nat): Pen
    requires n <= |exts|
  {
    if n == 0 then Pen(0.0, padding, padding)
    else Advance(padding, width, PenAfter(padding, width, exts, n - 1), exts[n - 1])
  }

  /** The box that legend `i` takes up. */
  function ItemBox(padding: real, width: real, exts: seq<Extent>, i: nat): Box
    requires i < |exts|
  {
    var pen := PenAfter(padding, width, exts, i + 1);
    Box(pen.lineUsed - ItemWidth(padding, exts[i]), pen.totalHeight,
        ItemWidth(padding, exts[i]), ItemHeight(padding, exts[i]))
  }

  /** The height that the layout reserves. */
  function LayoutHeight(padding: real, width: real, exts: seq<Extent>): real {
    var pen := PenAfter(padding, width, exts, |exts|);
    pen.totalHeight + pen.lineHeight
  }

  /** An earlier box is left of the pen in the current row, and no taller than the line,
      or it ends above the current row. */
  ghost predicate Behind(b: Box, pen: Pen) {
    || (b.y == pen.totalHeight && b.x + b.width <= pen.lineUsed && b.height <= pen.lineHeight)
    || b.y + b.height <= pen.totalHeight
  }

  lemma {:induction false} BoxesBehind(padding: real, width: real, exts: seq<Extent>, i: nat, n: nat)
    requires padding >= 0.0 && NonNegative(exts) && i < n <= |exts|
    ensures Behind(ItemBox(padding, width, exts, i), PenAfter(padding, width, exts, n))
    ensures PenAfter(padding, width, exts, n).lineHeight >= 0.0
  {
    if i < n - 1 {
      BoxesBehind(padding, width, exts, i, n - 1);
    }
    LineHeightPositive(padding, width, exts, n);
  }

  lemma {:induction false} LineHeightPositive(padding: real, width: real, exts: seq<Extent>, n: nat)
    requires padding >= 0.0 && NonNegative(exts) && n <= |exts|
    ensures var pen := PenAfter(padding, width, exts, n);
            pen.lineHeight >= 0.0 && pen.lineUsed >= padding && pen.totalHeight >= padding
  {
    if n > 0 {
      LineHeightPositive(padding, width, exts, n - 1);
    }
  }

  /** No two items overlap. */
  lemma ItemsDoNotOverlap(padding: real, width: real, exts: seq<Extent>, i: nat, j: nat)
    requires padding >= 0.0 && NonNegative(exts) && i < j < |exts|
    ensures !ItemBox(padding, width, exts, i).Overlaps(ItemBox(padding, width, exts, j))
  {
    BoxesBehind(padding, width, exts, i, j);
    LineHeightPositive(padding, width, exts, j);
  }

  /** Every item ends above the height that the layout reserves. */
  lemma ItemsFitHeight(padding: real, width: real, exts: seq<Extent>, i: nat)
    requires padding >= 0.0 && NonNegative(exts) && i < |exts|
    ensures var b := ItemBox(padding, width, exts, i);
            padding <= b.y && b.y + b.height <= LayoutHeight(padding, width, exts)
  {
    BoxesBehind(padding, width, exts, i, |exts|);
    LineHeightPositive(padding, width, exts, i + 1);
  }

  /** An item fits the width if and only if it would fit after the padding. */
  lemma ItemFitsWidthIff(padding: real, width: real, exts: seq<Extent>, i: nat)
    requires padding >= 0.0 && NonNegative(exts) && i < |exts|
    ensures var b := ItemBox(padding, width, exts, i);
            padding <= b.x && (b.x + b.width <= width <==> padding + ItemWidth(padding, exts[i]) <= width)
  {
    LineHeightPositive(padding, width, exts, i);
  }

  // ---------------------------------------------------------------- the rows, without the pen

  /** `h` is the greatest height of the first `n` boxes. */
  ghost predicate IsTallest(boxes: seq<Box>, n: nat, h: real)
    requires n <= |boxes|
  {
    (exists i :: 0 <= i < n && boxes[i].height == h) && forall i | 0 <= i < n :: boxes[i].height <= h
  }

  /** Box `i` goes on in the row of the one before it if it fits there. Otherwise it starts
      a new row at the left, lower by the greatest height of any box up to this one. */
  ghost predicate Follows(padding: real, width: real, boxes: seq<Box>, i: nat)
    requires 0 < i < |boxes|
  {
    var a, b := boxes[i - 1], boxes[i];
    if a.x + a.width + b.width <= width then b.x == a.x + a.width && b.y == a.y
    else b.x == padding && IsTallest(boxes, i + 1, b.y - a.y)
  }

  /** Every box has room for the text, the square, and padding before, between and after
      them; the first one starts at the top left, one row lower if it is too wide; and
      the height ends one greatest box height below the last row. */
  ghost predicate IsLayout(padding: real, width: real, exts: seq<Extent>, boxes: seq<Box>, height: real) {
    && |boxes| == |exts|
    && (forall i | 0 <= i < |exts| ::
          boxes[i].width == 3.0 * padding + exts[i].width && boxes[i].height == exts[i].height + padding)
    && (boxes != [] ==>
          && boxes[0].x == padding
          && boxes[0].y == if padding + boxes[0].width <= width then padding else padding + boxes[0].height)
    && (forall i | 0 < i < |boxes| :: Follows(padding, width, boxes, i))
    && if boxes == [] then height == padding else IsTallest(boxes, |boxes|, height - boxes[|boxes| - 1].y)
  }

  ghost function Boxes(padding: real, width: real, exts: seq<Extent>): (boxes: seq<Box>)
    ensures |boxes| == |exts| && forall i | 0 <= i < |exts| :: boxes[i] == ItemBox(padding, width, exts, i)
  {
    seq(|exts|, i requires 0 <= i < |exts| => ItemBox(padding, width, exts, i))
  }

  lemma {:induction false} LineHeightIsTallest(padding: real, width: real, exts: seq<Extent>, n: nat)
    requires padding >= 0.0 && NonNegative(exts) && 0 < n <= |exts|
    ensures IsTallest(Boxes(padding, width, exts), n, PenAfter(padding, width, exts, n).lineHeight)
  {
    var boxes := Boxes(padding, width, exts);
    var before := PenAfter(padding, width, exts, n - 1).lineHeight;
    assert boxes[n - 1].height == ItemHeight(padding, exts[n - 1]);
    if n == 1 {
      assert PenAfter(padding, width, exts, 1).lineHeight == boxes[0].height;
    } else {
      LineHeightIsTallest(padding, width, exts, n - 1);
      var i :| 0 <= i < n - 1 && boxes[i].height == before;
      var top := if boxes[n - 1].height > before then n - 1 else i;
      assert boxes[top].height == PenAfter(padding, width, exts, n).lineHeight;
    }
  }

  lemma BoxFollows(padding: real, width: real, exts: seq<Extent>, i: nat)
    requires padding >= 0.0 && NonNegative(exts) && 0 < i < |exts|
    ensures Follows(padding, width, Boxes(padding, width, exts), i)
  {
    LineHeightIsTallest(padding, width, exts, i + 1);
  }

  /** What the loops compute is such a layout. */
  lemma ComputedLayout(padding: real, width: real, exts: seq<Extent>)
    requires padding >= 0.0 && NonNegative(exts)
    ensures IsLayout(padding, width, exts, Boxes(padding, width, exts), LayoutHeight(padding, width, exts))
  {
    forall i | 0 < i < |exts|
      ensures Follows(padding, width, Boxes(padding, width, exts), i)
    {
      BoxFollows(padding, width, exts, i);
    }
    if exts != [] {
      LineHeightIsTallest(padding, width, exts, |exts|);
      LineHeightIsTallest(padding, width, exts, 1);
      assert PenAfter(padding, width, exts, 0) == Pen(0.0, padding, padding);
    }
  }

  lemma OneTallest(a: seq<Box>, b: seq<Box>, n: nat, h: real, k: real)
    requires n <= |a| && n <= |b| && forall i | 0 <= i < n :: a[i].height == b[i].height
    requires IsTallest(a, n, h) && IsTallest(b, n, k)
    ensures h == k
  {
  }

  lemma {:induction false} SameBoxes(padding: real, width: real, exts: seq<Extent>, a: seq<Box>, b: seq<Box>,
                                     h: real, k: real, n: nat)
    requires IsLayout(padding, width, exts, a, h) && IsLayout(padding, width, exts, b, k) && n <= |exts|
    ensures a[..n] == b[..n]
  {
    if n > 0 {
      SameBoxes(padding, width, exts, a, b, h, k, n - 1);
      var i := n - 1;
      if i > 0 {
        assert Follows(padding, width, a, i) && Follows(padding, width, b, i);
        assert a[i - 1] == a[..i][i - 1] == b[..i][i - 1] == b[i - 1];
        if a[i - 1].x + a[i - 1].width + a[i].width > width {
          OneTallest(a, b, n, a[i].y - a[i - 1].y, b[i].y - b[i - 1].y);
        }
      }
      assert a[i] == b[i];
      assert a[..n] == a[..i] + [a[i]] && b[..n] == b[..i] + [b[i]];
    }
  }

  /** There is no other layout of the same items. */
  lemma LayoutIsUnique(padding: real, width: real, exts: seq<Extent>, a: seq<Box>, b: seq<Box>, h: real, k: real)
    requires IsLayout(padding, width, exts, a, h) && IsLayout(padding, width, exts, b, k)
    ensures a == b && h == k
  {
    SameBoxes(padding, width, exts, a, b, h, k, |exts|);
    assert a[..|exts|] == a && b[..|exts|] == b;
    if exts != [] {
      OneTallest(a, b, |a|, h - a[|a| - 1].y, k - b[|b| - 1].y);
    }
  }

  // ---------------------------------------------------------------- what is drawn

  /** The square and the text of one legend, as drawn inside its box. */
  ghost predicate DrawnWell(d: Drawn, item: Box, padding: real, e: Extent) {
    && d.marker.Inside(item) && d.text.Inside(item) && !d.marker.Overlaps(d.text)
    && d.marker == Box(item.x, item.y, padding, padding)
    && d.text == Box(item.x + 2.0 * padding, item.y, e.width, e.height)
  }

  ghost predicate Apart(d: Drawn, e: Drawn) {
    && !d.marker.Overlaps(e.marker) && !d.marker.Overlaps(e.text)
    && !d.text.Overlaps(e.marker) && !d.text.Overlaps(e.text)
  }

  ghost predicate Under(d: Drawn, height: real) {
    d.marker.y + d.marker.height <= height && d.text.y + d.text.height <= height
  }

  ghost predicate LeftOf(d: Drawn, width: real) {
    d.marker.x + d.marker.width <= width && d.text.x + d.text.width <= width
  }

  /** Every legend so far is drawn as it should be. */
  ghost predicate DrawnIn(drawn: seq<Drawn>, boxes: seq<Box>, padding: real, exts: seq<Extent>) {
    && |drawn| <= |boxes| == |exts|
    && forall i | 0 <= i < |drawn| :: DrawnWell(drawn[i], boxes[i], padding, exts[i])
  }

  lemma NothingDrawn(boxes: seq<Box>, padding: real, exts: seq<Extent>)
    requires |boxes| == |exts|
    ensures DrawnIn([], boxes, padding, exts)
  {
  }

  lemma DrawnNext(drawn: seq<Drawn>, boxes: seq<Box>, padding: real, exts: seq<Extent>, d: Drawn)
    requires |drawn| < |exts| && DrawnIn(drawn, boxes, padding, exts) && padding >= 0.0 && NonNegative(exts)
    requires var b, e := boxes[|drawn|], exts[|drawn|];
             && b.width == ItemWidth(padding, e) && b.height == ItemHeight(padding, e)
             && d.marker == Box(b.x, b.y, padding, padding)
             && d.text == Box(b.x + padding * 2.0, b.y, e.width, e.height)
    ensures DrawnIn(drawn + [d], boxes, padding, exts)
  {
    assert DrawnWell(d, boxes[|drawn|], padding, exts[|drawn|]);
    assert forall i | 0 <= i < |drawn| :: (drawn + [d])[i] == drawn[i];
  }

  lemma InsideKeepsApart(d: Drawn, e: Drawn, p: Box, q: Box)
    requires d.marker.Inside(p) && d.text.Inside(p) && e.marker.Inside(q) && e.text.Inside(q)
    requires !p.Overlaps(q)
    ensures Apart(d, e)
  {
  }

  lemma DrawnApart(padding: real, width: real, exts: seq<Extent>, drawn: seq<Drawn>)
    requires padding >= 0.0 && NonNegative(exts) && |drawn| == |exts|
    requires DrawnIn(drawn, Boxes(padding, width, exts), padding, exts)
    ensures forall i, j | 0 <= i < j < |drawn| :: Apart(drawn[i], drawn[j])
    ensures forall i | 0 <= i < |drawn| :: Under(drawn[i], LayoutHeight(padding, width, exts))
    ensures forall i | 0 <= i < |drawn| && padding + ItemWidth(padding, exts[i]) <= width :: LeftOf(drawn[i], width)
  {
    forall i, j | 0 <= i < j < |drawn|
      ensures Apart(drawn[i], drawn[j])
    {
      ItemsDoNotOverlap(padding, width, exts, i, j);
      InsideKeepsApart(drawn[i], drawn[j], ItemBox(padding, width, exts, i), ItemBox(padding, width, exts, j));
    }
    forall i | 0 <= i < |drawn|
      ensures Under(drawn[i], LayoutHeight(padding, width, exts))
    {
      ItemsFitHeight(padding, width, exts, i);
    }
    forall i | 0 <= i < |drawn| && padding + ItemWidth(padding, exts[i]) <= width
      ensures LeftOf(drawn[i], width)
    {
      ItemFitsWidthIff(padding, width, exts, i);
    }
  }

  class TopLegendRenderer {
    var padding: real
    var legends: seq<Extent>
    var width: real
    var height: real

    constructor (legends: seq<Extent>)
      ensures padding == 10.0 && this.legends == legends
    {
      padding := 10.0;
      this.legends := legends;
      width, height := 0.0, 0.0;
    }

    method Layout(newWidth: real)
      modifies this`width, this`height
      ensures width == newWidth
      ensures height == LayoutHeight(padding, newWidth, legends)
      ensures padding >= 0.0 && NonNegative(legends) ==>
                exists boxes :: IsLayout(padding, newWidth, legends, boxes, height)
    {
      width := newWidth;
      var lineHeight, totalHeight, lineUsed := 0.0, padding, padding;
      for i := 0 to |legends|
        invariant Pen(lineHeight, totalHeight, lineUsed) == PenAfter(padding, newWidth, legends, i)
      {
        var itemWidth := padding + padding + legends[i].width + padding;
        var itemHeight := legends[i].height + padding;
        if itemHeight > lineHeight {
          lineHeight := itemHeight;
        }
        if lineUsed + itemWidth > width {
          lineUsed := padding + itemWidth;
          totalHeight := totalHeight + lineHeight;
        } else {
          lineUsed := lineUsed + itemWidth;
        }
      }
      totalHeight := totalHeight + lineHeight;
      height := totalHeight;
      if padding >= 0.0 && NonNegative(legends) {
        ComputedLayout(padding, newWidth, legends);
      }
    }

    /** Everything drawn for a legend lies in the legend's own box, the square to the left
        of the text; so nothing drawn for one legend overlaps what is drawn for another,
        all of it lies under the height that `Layout` computes for this width, and what
        could fit into the width does. */
    method Draw() returns (drawn: seq<Drawn>)
      requires padding >= 0.0 && NonNegative(legends)
      ensures |drawn| == |legends|
      ensures exists boxes, h ::
                IsLayout(padding, width, legends, boxes, h) && DrawnIn(drawn, boxes, padding, legends)
      ensures forall i, j | 0 <= i < j < |drawn| :: Apart(drawn[i], drawn[j])
      ensures forall i | 0 <= i < |drawn| :: Under(drawn[i], LayoutHeight(padding, width, legends))
      ensures forall i | 0 <= i < |drawn| ::
                padding + ItemWidth(padding, legends[i]) <= width ==> LeftOf(drawn[i], width)
    {
      hide IsLayout, DrawnIn, DrawnWell, Apart, Under, LeftOf, Boxes;
      ghost var boxes := Boxes(padding, width, legends);
      drawn := [];
      NothingDrawn(boxes, padding, legends);
      var lineHeight, totalHeight, lineUsed := 0.0, padding, padding;
      for i := 0 to |legends|
        invariant Pen(lineHeight, totalHeight, lineUsed) == PenAfter(padding, width, legends, i)
        invariant |drawn| == i && DrawnIn(drawn, boxes, padding, legends)
      {
        var itemWidth := padding + padding + legends[i].width + padding;
        var itemHeight := legends[i].height + padding;
        if itemHeight > lineHeight {
          lineHeight := itemHeight;
        }
        if lineUsed + itemWidth > width {
          lineUsed := padding + itemWidth;
          totalHeight := totalHeight + lineHeight;
        } else {
          lineUsed := lineUsed + itemWidth;
        }
        var x := lineUsed - itemWidth;
        var marker := Box(x, totalHeight, padding, padding);
        var text := Box(x + padding * 2.0, totalHeight, legends[i].width, legends[i].height);
        DrawnNext(drawn, boxes, padding, legends, Drawn(marker, text));
        drawn := drawn + [Drawn(marker, text)];
      }
      DrawnApart(padding, width, legends, drawn);
      ComputedLayout(padding, width, legends);
    }
  }
}
