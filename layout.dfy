/** Where zml.go puts things on the canvas: the layout arithmetic of
    `renderTitle`, `renderElemenets`, `drawNode` and `renderConnections`,
    without the drawing. Positions are exact reals; text extents come from
    the font and are given as inputs. */
module Layout {
  import opened Text
  import opened Graph

  const BoxWidth: real := 100.0     // elemenetBoxWidth
  const BoxHeight: real := 50.0     // elemenetBoxHeight
  const Padding: real := 32.0       // elemenetsPadding
  const EdgeSpacing: int := 50      // verticalSpaceBetweenEdges
  const StrokeOffset: real := 2.5   // half of the stroke width
  const TopBoxY: real := 100.0      // height * 0.1, with height = 1000
  const TitleY: real := 50.0        // height * 0.05
  const WingSize: real := 10.0      // the arrow head's reach, across and along
  const LabelGap: real := 5.0       // between an edge and its label

  datatype Coord = Coord(x: real, y: real)

  /** What `MeasureString` reports for a text. */
  datatype Extent = Extent(width: real, height: real)

  /** `spacePerBlock`: the canvas width divided among the elements, as an
      integer division of the pixel width by the element count. */
  function SlotWidth(canvasWidth: nat, count: nat): (w: real)
    requires count > 0
    ensures 0.0 <= w <= canvasWidth as real && w == w.Floor as real
  {
    (canvasWidth / count) as real
  }

  /** The slots fill the canvas as far as whole pixels allow: count slots fit,
      and one pixel more per slot would not. */
  lemma SlotWidthFits(canvasWidth: nat, count: nat)
    requires count > 0
    ensures SlotWidth(canvasWidth, count) * count as real <= canvasWidth as real
    ensures canvasWidth as real < (SlotWidth(canvasWidth, count) + 1.0) * count as real
  {
    var q := canvasWidth / count;
    assert q * count <= canvasWidth < (q + 1) * count;
    assert (q * count) as real == q as real * count as real;
    assert ((q + 1) * count) as real == (q as real + 1.0) * count as real;
  }

  /** Left edge of the k-th element box drawn: half a slot before the end of
      slot k, less the padding. */
  function ElementX(slot: real, k: nat): (x: real)
    ensures x + BoxWidth / 2.0 == slot * k as real + slot / 2.0 + 18.0
  {
    assert slot * (k + 1) as real == slot * k as real + slot;
    slot * (k + 1) as real - slot / 2.0 - Padding
  }

  /** Where `drawNode` writes the label of a box whose top-left corner is at
      box: centred across the box, half the text height below its middle. */
  function LabelAt(box: Coord, text: Extent): (c: Coord)
    ensures c.x + text.width / 2.0 == box.x + BoxWidth / 2.0
    ensures c.y - text.height / 2.0 == box.y + BoxHeight / 2.0
  {
    Coord(box.x + BoxWidth / 2.0 - text.width / 2.0, BoxHeight / 2.0 + box.y + text.height / 2.0)
  }

  /** What `renderElemenets` draws for one element: the top box, the
      lifeline below it and the bottom box, each box with its label. */
  datatype NodePlacement = NodePlacement(
    name: string,
    top: Coord, topLabel: Coord,
    lifelineX: real, lifelineTop: real, lifelineBottom: real,
    bottom: Coord, bottomLabel: Coord)

  /** The lifeline starts just below the top box. */
  function LifelineTop(): (t: real)
    ensures TopBoxY + BoxHeight < t
  {
    TopBoxY + BoxHeight + StrokeOffset
  }

  /** The lifeline leaves one row per edge and one more row of padding. */
  function LifelineBottom(edgeCount: nat): (b: real)
    ensures b == LifelineTop() + ((edgeCount + 1) * EdgeSpacing) as real
  {
    (edgeCount * EdgeSpacing) as real + LifelineTop() + EdgeSpacing as real
  }

  /** The placement of the k-th element rendered, for a slot width and a
      number of edges. */
  function PlaceNode(name: string, k: nat, slot: real, edgeCount: nat, text: Extent): (p: NodePlacement)
    ensures p.top.y + BoxHeight < p.lifelineTop < p.lifelineBottom < p.bottom.y
    ensures p.top.x == p.bottom.x && p.top.x < p.lifelineX < p.top.x + BoxWidth
  {
    var x := ElementX(slot, k);
    var top := Coord(x, TopBoxY);
    var bottom := Coord(x, LifelineBottom(edgeCount) + 1.0);
    NodePlacement(name, top, LabelAt(top, text),
                  x + BoxWidth / 2.0 - StrokeOffset, LifelineTop(), LifelineBottom(edgeCount),
                  bottom, LabelAt(bottom, text))
  }

  /** What one pass of `renderElemenets` draws for the elements in placed,
      rendered as number base, base + 1, ...; measure gives each label's
      extent. */
  function PlaceNodes(placed: seq<Element>, base: nat, slot: real, edgeCount: nat,
                      measure: string -> Extent): (ps: seq<NodePlacement>)
    ensures |ps| == |placed|
    decreases |placed|
  {
    if placed == [] then []
    else
      var n := |placed| - 1;
      PlaceNodes(placed[..n], base, slot, edgeCount, measure) +
        [PlaceNode(placed[n].name, base + n, slot, edgeCount, measure(placed[n].name))]
  }

  /** The j-th placement of a pass is that of the j-th element placed. */
  lemma {:induction false} PlaceNodesAt(placed: seq<Element>, base: nat, slot: real, edgeCount: nat,
                                        measure: string -> Extent, j: nat)
    requires j < |placed|
    ensures PlaceNodes(placed, base, slot, edgeCount, measure)[j] ==
              PlaceNode(placed[j].name, base + j, slot, edgeCount, measure(placed[j].name))
    decreases |placed|
  {
    var n := |placed| - 1;
    if j < n {
      assert placed[..n][j] == placed[j];
      PlaceNodesAt(placed[..n], base, slot, edgeCount, measure, j);
    }
  }

  /** Placing one more element adds its placement at the end. */
  lemma PlaceNodesSnoc(placed: seq<Element>, p: Element, base: nat, slot: real, edgeCount: nat,
                       measure: string -> Extent)
    ensures PlaceNodes(placed + [p], base, slot, edgeCount, measure) ==
              PlaceNodes(placed, base, slot, edgeCount, measure) +
                [PlaceNode(p.name, base + |placed|, slot, edgeCount, measure(p.name))]
  {
    assert (placed + [p])[..|placed|] == placed;
  }

  /** The two strokes of an arrow head: from the tip back to the wing ends. */
  datatype ArrowHead = ArrowHead(tip: Coord, upper: Coord, lower: Coord)

  /** What `renderConnections` draws for one edge: the dashed line from start
      to endX on one row, whether it runs right to left, the arrow head of a
      directional edge and the position of a non-empty label. */
  datatype EdgePlacement = EdgePlacement(
    start: Coord, endX: real, reverse: bool,
    head: Option<ArrowHead>, labelAt: Option<Coord>)

  /** The recorded top-left corner of a name's box; a name that was never
      rendered reads as the zero value of a Go map. */
  function CoordOf(coords: map<string, Coord>, name: string): (c: Coord)
    ensures name !in coords ==> c == Coord(0.0, 0.0)
  {
    if name in coords then coords[name] else Coord(0.0, 0.0)
  }

  /** The centre line of the lifeline of a box whose left edge is at x. */
  function LineX(x: real): (l: real)
    ensures x < l < x + BoxWidth
  {
    x + BoxWidth / 2.0 - StrokeOffset
  }

  /** The row of the i-th edge drawn, below the box of its source at y. */
  function RowY(y: real, i: nat): (r: real)
    ensures y + BoxHeight + EdgeSpacing as real < r
  {
    y + BoxHeight + StrokeOffset + ((1 + i) * EdgeSpacing) as real
  }

  /** The placement of the i-th edge e, for the recorded box corners and the
      extent of its label. */
  function PlaceEdge(e: Edge, i: nat, coords: map<string, Coord>, text: Extent): (p: EdgePlacement)
    ensures p.reverse <==> p.endX < p.start.x
    ensures p.head.Some? <==> e.directional
    ensures p.labelAt.Some? <==> e.labelText != []
  {
    var from := CoordOf(coords, e.from.name);
    var to := CoordOf(coords, e.to.name);
    var startX := LineX(from.x);
    var y := RowY(from.y, i);
    var endX := LineX(to.x);
    var reverse := endX < startX;
    var head :=
      if e.directional then
        var wingX := if reverse then endX + WingSize else endX - WingSize;
        Some(ArrowHead(Coord(endX, y), Coord(wingX, y - WingSize), Coord(wingX, y + WingSize)))
      else None;
    var labelAt :=
      if e.labelText != [] then
        var x := if reverse then startX - Padding / 2.0 - text.width else startX + Padding / 2.0;
        Some(Coord(x, y + text.height + LabelGap))
      else None;
    EdgePlacement(Coord(startX, y), endX, reverse, head, labelAt)
  }

  /** An edge end without a recorded box is drawn as if its box stood at
      the origin: its line runs from or to x = LineX(0), and an edge whose
      source has no box is drawn on the row below y = 0. */
  lemma MissingBoxAtOrigin(e: Edge, i: nat, coords: map<string, Coord>, text: Extent)
    ensures e.from.name !in coords ==> PlaceEdge(e, i, coords, text).start == Coord(LineX(0.0), RowY(0.0, i))
    ensures e.to.name !in coords ==> PlaceEdge(e, i, coords, text).endX == LineX(0.0)
  {
  }

  /** Where `renderTitle` writes the title: centred on the canvas width. */
  function TitleAt(canvasWidth: nat, text: Extent): (c: Coord)
    ensures c.x + text.width / 2.0 == canvasWidth as real / 2.0 && c.y == TitleY
  {
    Coord(canvasWidth as real / 2.0 - text.width / 2.0, TitleY)
  }

  /** The elements a rendering pass leaves rendered, starting from done: in
      order, each one appended, until one whose name is already rendered
      stops the pass. */
  function RenderedAfter(els: seq<Element>, done: seq<Element>): (r: seq<Element>)
    ensures |done| <= |r| && r[..|done|] == done
    decreases |els|
  {
    if els == [] then done
    else if els[0].name in Names(done) then done
    else
      var r := RenderedAfter(els[1..], done + [els[0]]);
      assert r[..|done|] == (done + [els[0]])[..|done|];
      r
  }

  /** A pass at position idx takes a new element and goes on at idx + 1. */
  lemma RenderedAfterStep(els: seq<Element>, idx: nat, done: seq<Element>)
    requires idx < |els| && els[idx].name !in Names(done)
    ensures RenderedAfter(els[idx..], done) == RenderedAfter(els[idx + 1..], done + [els[idx]])
  {
    assert els[idx..][0] == els[idx] && els[idx..][1..] == els[idx + 1..];
  }

  /** A pass stops at an element already rendered. */
  lemma RenderedAfterStop(els: seq<Element>, idx: nat, done: seq<Element>)
    requires idx < |els| && els[idx].name in Names(done)
    ensures RenderedAfter(els[idx..], done) == done
  {
    assert els[idx..][0] == els[idx];
  }

  /** Box corners after the elements in placed were rendered as number
      base, base + 1, ... in a row of slots of width slot. */
  function PlaceAll(coords: map<string, Coord>, placed: seq<Element>, base: nat, slot: real): (r: map<string, Coord>)
    ensures coords.Keys <= r.Keys
    decreases |placed|
  {
    if placed == [] then coords
    else
      var n := |placed| - 1;
      PlaceAll(coords, placed[..n], base, slot)[placed[n].name := Coord(ElementX(slot, base + n), TopBoxY)]
  }

  /** A pass records a box for exactly the names placed, each on the top
      row, and leaves the boxes of other names as they were. */
  lemma {:induction false} PlaceAllKeys(coords: map<string, Coord>, placed: seq<Element>, base: nat, slot: real)
    ensures var r := PlaceAll(coords, placed, base, slot);
      && (forall n :: n in r <==> n in coords || n in Names(placed))
      && (forall n :: n in coords && n !in Names(placed) ==> r[n] == coords[n])
      && (forall n :: n in Names(placed) ==> r[n].y == TopBoxY)
    decreases |placed|
  {
    if placed != [] {
      var n := |placed| - 1;
      assert Names(placed) == Names(placed[..n]) + [placed[n].name];
      PlaceAllKeys(coords, placed[..n], base, slot);
    }
  }

  /** Placing one more element adds its box and keeps the others. */
  lemma PlaceAllSnoc(coords: map<string, Coord>, placed: seq<Element>, p: Element, base: nat, slot: real)
    ensures PlaceAll(coords, placed + [p], base, slot) ==
              PlaceAll(coords, placed, base, slot)[p.name := Coord(ElementX(slot, base + |placed|), TopBoxY)]
  {
    assert (placed + [p])[..|placed|] == placed;
  }

  /** One more element of a pass, at position idx: its box and its
      placement are added to those of the elements before it. */
  lemma PassStep(els: seq<Element>, idx: nat, coords: map<string, Coord>, base: nat, slot: real,
                 edgeCount: nat, measure: string -> Extent)
    requires idx < |els|
    ensures els[..idx + 1] == els[..idx] + [els[idx]]
    ensures PlaceAll(coords, els[..idx + 1], base, slot) ==
              PlaceAll(coords, els[..idx], base, slot)[els[idx].name := Coord(ElementX(slot, base + idx), TopBoxY)]
    ensures PlaceNodes(els[..idx + 1], base, slot, edgeCount, measure) ==
              PlaceNodes(els[..idx], base, slot, edgeCount, measure) +
                [PlaceNode(els[idx].name, base + idx, slot, edgeCount, measure(els[idx].name))]
  {
    assert els[..idx + 1] == els[..idx] + [els[idx]];
    PlaceAllSnoc(coords, els[..idx], els[idx], base, slot);
    PlaceNodesSnoc(els[..idx], els[idx], base, slot, edgeCount, measure);
  }

  /** Each element placed in one pass gets the box of its own slot. */
  lemma {:induction false} PlaceAllAt(coords: map<string, Coord>, placed: seq<Element>, base: nat, slot: real, j: nat)
    requires DistinctNames(placed) && j < |placed|
    ensures placed[j].name in PlaceAll(coords, placed, base, slot)
    ensures PlaceAll(coords, placed, base, slot)[placed[j].name] == Coord(ElementX(slot, base + j), TopBoxY)
    decreases |placed|
  {
    var n := |placed| - 1;
    if j < n {
      assert DistinctNames(placed[..n]);
      assert placed[..n][j] == placed[j];
      PlaceAllAt(coords, placed[..n], base, slot, j);
    }
  }

  /** Consecutive boxes are one slot apart. */
  lemma ElementXDistance(slot: real, j: nat, k: nat)
    requires j <= k
    ensures ElementX(slot, k) - ElementX(slot, j) == slot * (k - j) as real
  {
    assert slot * (k + 1) as real - slot * (j + 1) as real == slot * ((k + 1) as real - (j + 1) as real);
  }

  /** With a positive slot width, later elements are drawn further right. */
  lemma ElementsLeftToRight(slot: real, j: nat, k: nat)
    requires slot > 0.0 && j < k
    ensures ElementX(slot, j) < ElementX(slot, k)
  {
    ElementXDistance(slot, j, k);
    assert slot * (k - j) as real >= slot * 1.0;
  }

  /** Once a slot is at least a box wide, no two boxes overlap. */
  lemma BoxesApart(slot: real, j: nat, k: nat)
    requires slot >= BoxWidth && j < k
    ensures ElementX(slot, j) + BoxWidth <= ElementX(slot, k)
  {
    ElementXDistance(slot, j, k);
    assert slot * (k - j) as real >= slot * 1.0;
  }

  /** A box's middle lies 18 pixels right of its slot's middle: half a box
      width less the padding. */
  /** When each of count elements gets a slot of at least 136 pixels, every box
      lies within the canvas width; below 64 pixels the first box starts left
      of the canvas. */
  lemma BoxesOnCanvas(canvasWidth: nat, count: nat, k: nat)
    requires k < count
    ensures SlotWidth(canvasWidth, count) >= 136.0 ==>
              0.0 <= ElementX(SlotWidth(canvasWidth, count), k) &&
              ElementX(SlotWidth(canvasWidth, count), k) + BoxWidth <= canvasWidth as real
    ensures SlotWidth(canvasWidth, count) < 64.0 ==> ElementX(SlotWidth(canvasWidth, count), 0) < 0.0
  {
    var slot := SlotWidth(canvasWidth, count);
    SlotWidthFits(canvasWidth, count);
    ElementXDistance(slot, k, count - 1);
    assert ElementX(slot, count - 1) == slot * count as real - slot / 2.0 - Padding;
    assert slot * (count - 1 - k) as real >= 0.0;
  }

  /** Edges are drawn in order, each on a lower row than the one before. */
  lemma RowsInOrder(y: real, i: nat, j: nat)
    requires i < j
    ensures RowY(y, i) + ((j - i) * EdgeSpacing) as real == RowY(y, j)
    ensures RowY(y, i) < RowY(y, j)
  {
  }

  /** An edge row below a top box lies strictly inside the lifeline, as long
      as the edge is one of the edges the lifeline was sized for. */
  lemma RowOnLifeline(i: nat, edgeCount: nat)
    requires i < edgeCount
    ensures LifelineTop() < RowY(TopBoxY, i) < LifelineBottom(edgeCount)
  {
  }

  /** The i-th edge, between two elements placed in the same pass, starts on
      the lifeline of its source and ends on the lifeline of its target; when
      the lifelines were sized for more than i edges, its row lies strictly
      inside both. */
  lemma EdgeJoinsLifelines(e: Edge, i: nat, coords: map<string, Coord>, text: Extent,
                           slot: real, edgeCount: nat, kf: nat, kt: nat, fromText: Extent, toText: Extent)
    requires e.from.name in coords && coords[e.from.name] == PlaceNode(e.from.name, kf, slot, edgeCount, fromText).top
    requires e.to.name in coords && coords[e.to.name] == PlaceNode(e.to.name, kt, slot, edgeCount, toText).top
    ensures PlaceEdge(e, i, coords, text).start.x == PlaceNode(e.from.name, kf, slot, edgeCount, fromText).lifelineX
    ensures PlaceEdge(e, i, coords, text).endX == PlaceNode(e.to.name, kt, slot, edgeCount, toText).lifelineX
    ensures i < edgeCount ==>
              LifelineTop() < PlaceEdge(e, i, coords, text).start.y < LifelineBottom(edgeCount)
  {
    if i < edgeCount {
      RowOnLifeline(i, edgeCount);
    }
  }

  /** Between elements placed in the same pass, an edge runs right to left
      exactly when its target was placed before its source. */
  lemma ReverseIffTargetFirst(e: Edge, i: nat, coords: map<string, Coord>, text: Extent, slot: real, kf: nat, kt: nat)
    requires slot > 0.0
    requires e.from.name in coords && coords[e.from.name] == Coord(ElementX(slot, kf), TopBoxY)
    requires e.to.name in coords && coords[e.to.name] == Coord(ElementX(slot, kt), TopBoxY)
    ensures PlaceEdge(e, i, coords, text).reverse <==> kt < kf
  {
    if kt < kf {
      ElementsLeftToRight(slot, kt, kf);
    } else if kf < kt {
      ElementsLeftToRight(slot, kf, kt);
    }
  }

  /** The arrow head of a directional edge has its tip at the end of the line
      and both wings on the side the line comes from, one above and one below
      the row. */
  lemma ArrowHeadPointsAtTarget(e: Edge, i: nat, coords: map<string, Coord>, text: Extent)
    requires e.directional
    ensures var p := PlaceEdge(e, i, coords, text);
      p.head.Some? && p.head.value.tip == Coord(p.endX, p.start.y) &&
      p.head.value.upper.x == p.head.value.lower.x &&
      p.head.value.upper.y + WingSize == p.start.y == p.head.value.lower.y - WingSize &&
      (p.reverse ==> p.head.value.upper.x == p.endX + WingSize) &&
      (!p.reverse ==> p.head.value.upper.x == p.endX - WingSize)
  {
  }

  /** A label is written just below the row, beside the start of the line
      and away from it: to the right of a left-to-right line, ending 16
      pixels left of the start of a right-to-left one. */
  lemma LabelBesideStart(e: Edge, i: nat, coords: map<string, Coord>, text: Extent)
    requires e.labelText != []
    ensures var p := PlaceEdge(e, i, coords, text);
      p.labelAt.Some? && p.labelAt.value.y == p.start.y + text.height + LabelGap &&
      (p.reverse ==> p.labelAt.value.x + text.width == p.start.x - Padding / 2.0) &&
      (!p.reverse ==> p.labelAt.value.x == p.start.x + Padding / 2.0)
  {
  }

  /** The elements a pass renders: a prefix of els, each one new when its
      turn came, and either all of els or up to one that was already there. */
  lemma {:induction false} RenderedPrefix(els: seq<Element>, done: seq<Element>) returns (m: nat)
    ensures m <= |els| && RenderedAfter(els, done) == done + els[..m]
    ensures forall j :: 0 <= j < m ==> els[j].name !in Names(done + els[..j])
    ensures m == |els| || els[m].name in Names(done + els[..m])
    decreases |els|
  {
    if els == [] {
      m := 0;
    } else if els[0].name in Names(done) {
      m := 0;
      assert done + els[..0] == done;
    } else {
      var m1 := RenderedPrefix(els[1..], done + [els[0]]);
      m := m1 + 1;
      PrefixShift(els, done, m);
      forall j | 0 <= j < m ensures els[j].name !in Names(done + els[..j]) {
        if j > 0 {
          PrefixShift(els, done, j);
        } else {
          assert done + els[..0] == done;
        }
      }
    }
  }

  lemma PrefixShift(els: seq<Element>, done: seq<Element>, j: nat)
    requires 0 < j <= |els|
    ensures done + [els[0]] + els[1..][..j - 1] == done + els[..j]
    ensures j < |els| ==> els[1..][j - 1] == els[j]
  {
    assert [els[0]] + els[1..][..j - 1] == els[..j];
  }

  /** A pass over the elements from a rendered prefix of them renders a
      prefix too; and when something was rendered already, the first element
      is among it, so the pass renders nothing new. */
  lemma RenderedAfterPrefix(els: seq<Element>, done: seq<Element>)
    requires done <= els
    ensures RenderedAfter(els, done) <= els
    ensures done != [] ==> RenderedAfter(els, done) == done
  {
    if done != [] {
      assert els[0] == done[0];
      NamePresent(done, 0);
    } else {
      var m := RenderedPrefix(els, done);
      assert done + els[..m] == els[..m];
    }
  }

  /** With distinct names, one pass renders every element, once, in order. */
  lemma {:induction false} RenderedAfterAll(els: seq<Element>, done: seq<Element>)
    requires DistinctNames(done + els)
    ensures RenderedAfter(els, done) == done + els
    decreases |els|
  {
    if els != [] {
      assert (done + els)[|done|] == els[0];
      assert els[0].name !in Names(done) by {
        forall j | 0 <= j < |done| ensures done[j].name != els[0].name {
          assert (done + els)[j] == done[j];
        }
      }
      assert done + [els[0]] + els[1..] == done + els;
      RenderedAfterAll(els[1..], done + [els[0]]);
    }
  }

  /** A second pass over the same elements renders nothing more. */
  lemma RenderedAfterIdempotent(els: seq<Element>)
    ensures RenderedAfter(els, RenderedAfter(els, [])) == RenderedAfter(els, [])
  {
    if els != [] {
      var r := RenderedAfter(els, []);
      assert |Names([])| == 0;
      assert [] + [els[0]] == [els[0]];
      assert r[0] == els[0];
      assert Names(r)[0] == els[0].name;
    }
  }
}
