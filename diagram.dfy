/** The `Diagram` object of zml.go: the elements and edges a ZML text adds
    to it, the elements it has rendered and where, and its title; with the
    methods that change them in place and the rendering pass, whose drawing
    calls are replaced by the positions they would draw at. */
module Zml {
  import opened Text
  import opened Graph
  import opened Patterns
  import opened Script
  import opened Layout
  import Colors

  const DefaultWidth: real := 1024.0      // width
  const DefaultHeight: real := 1000.0     // height
  const NodeBackground: string := "platered"
  const NodeLabelColor: string := "white"

  /** What `AddConnection` returns: nil, or the error "elemenet not found". */
  datatype Outcome = Success | ElementNotFound

  /** What one call of `Render` produces, in place of the picture: the canvas
      size, the background colour, where the title, the elements and the
      edges go, and the name of the file written. */
  datatype Frame = Frame(
    width: int, height: int, background: Colors.Rgb,
    titleAt: Coord, nodes: seq<NodePlacement>, connections: seq<EdgePlacement>,
    output: string)

  /** The size of one side of the canvas `gg.NewContext(w, h)` makes: the
      image rectangle from (0, 0) to (w, h) is normalised, so a negative
      size counts by its magnitude. */
  function Magnitude(n: int): (m: nat)
    ensures m == n || m == -n
  {
    if n < 0 then -n else n
  }

  /** The slot width `renderElemenets` computes, for a canvas and a number of
      elements (unused when there are none). */
  function Slot(canvasWidth: nat, count: nat): (w: real)
    ensures 0.0 <= w <= canvasWidth as real && w == w.Floor as real
    ensures count > 0 ==> w * count as real <= canvasWidth as real < (w + 1.0) * count as real
  {
    if count == 0 then 0.0
    else
      SlotWidthFits(canvasWidth, count);
      SlotWidth(canvasWidth, count)
  }

  /** Distinct element names, edges between elements, the rendered elements
      a prefix of the elements, and a recorded box, on the top row, for
      exactly the rendered names. */
  ghost predicate Consistent(elements: seq<Element>, edges: seq<Edge>, rendered: seq<Element>, coords: map<string, Coord>) {
    && WellFormed(Contents(elements, edges))
    && rendered <= elements
    && (forall n :: n in coords <==> n in Names(rendered))
    && (forall n :: n in coords ==> coords[n].y == TopBoxY)
  }

  /** The loop of `renderElemenets` over the element list: each element in
      turn gets the box of the next slot, recorded under its name, until one
      that was already rendered ends the pass. The diagram's fields are
      written once the pass is over (Diagram.RenderElements). */
  method RenderPass(elements: seq<Element>, edgeCount: nat, rendered: seq<Element>,
                    coords: map<string, Coord>, canvasWidth: nat, measure: string -> Extent)
    returns (r: seq<Element>, c: map<string, Coord>, nodes: seq<NodePlacement>)
    ensures r == RenderedAfter(elements, rendered)
    ensures c == PlaceAll(coords, r[|rendered|..], |rendered|, Slot(canvasWidth, |elements|))
    ensures nodes == PlaceNodes(r[|rendered|..], |rendered|, Slot(canvasWidth, |elements|), edgeCount, measure)
  {
    r, c := rendered, coords;
    nodes := [];
    var idx := 0;
    while idx < |elements|
      invariant idx <= |elements|
      invariant r == rendered + elements[..idx]
      invariant RenderedAfter(elements, rendered) == RenderedAfter(elements[idx..], r)
      invariant c == PlaceAll(coords, elements[..idx], |rendered|, Slot(canvasWidth, |elements|))
      invariant nodes == PlaceNodes(elements[..idx], |rendered|, Slot(canvasWidth, |elements|), edgeCount, measure)
    {
      var p := elements[idx];
      var seen := HasName(r, p.name);
      if seen {
        RenderedAfterStop(elements, idx, r);
        break;
      }
      RenderedAfterStep(elements, idx, r);
      c, nodes := PlaceNext(elements, idx, |rendered|, coords, c, nodes, canvasWidth, edgeCount, measure);
      r := r + [p];
      idx := idx + 1;
    }
    if idx == |elements| {
      assert elements[idx..] == [];
    }
    assert r[|rendered|..] == elements[..idx];
  }

  /** The body of `renderElemenets` for element idx, the pass having
      started at base: the slot width, the box corner recorded under the
      element's name, and the node drawn there. */
  method PlaceNext(elements: seq<Element>, idx: nat, base: nat, coords: map<string, Coord>,
                   c: map<string, Coord>, nodes: seq<NodePlacement>,
                   canvasWidth: nat, edgeCount: nat, measure: string -> Extent)
    returns (c': map<string, Coord>, nodes': seq<NodePlacement>)
    requires idx < |elements|
    requires c == PlaceAll(coords, elements[..idx], base, Slot(canvasWidth, |elements|))
    requires nodes == PlaceNodes(elements[..idx], base, Slot(canvasWidth, |elements|), edgeCount, measure)
    ensures c' == PlaceAll(coords, elements[..idx + 1], base, Slot(canvasWidth, |elements|))
    ensures nodes' == PlaceNodes(elements[..idx + 1], base, Slot(canvasWidth, |elements|), edgeCount, measure)
  {
    var p := elements[idx];
    var spacePerBlock := SlotWidth(canvasWidth, |elements|);
    var startX := ElementX(spacePerBlock, base + idx);
    var node := PlaceNode(p.name, base + idx, spacePerBlock, edgeCount, measure(p.name));
    PassStep(elements, idx, coords, base, Slot(canvasWidth, |elements|), edgeCount, measure);
    c' := c[p.name := Coord(startX, TopBoxY)];
    nodes' := nodes + [node];
  }

  /** The inner loops of `AddElemenets` and `renderElemenets`: whether an
      element of that name is among els. */
  method HasName(els: seq<Element>, name: string) returns (found: bool)
    ensures found <==> name in Names(els)
  {
    for i := 0 to |els|
      invariant forall k :: 0 <= k < i ==> els[k].name != name
    {
      if els[i].name == name {
        NamePresent(els, i);
        return true;
      }
    }
    NamesAbsent(els, name);
    return false;
  }

  /** A rendering pass that started from no rendered elements, or stopped
      at once, leaves the diagram consistent: what is rendered is still a
      prefix of the elements, and each element it took got a box on the top
      row. */
  lemma RenderPassConsistent(elements: seq<Element>, edges: seq<Edge>, rendered: seq<Element>,
                             coords: map<string, Coord>, r: seq<Element>, slot: real)
    requires Consistent(elements, edges, rendered, coords)
    requires r <= elements && (rendered == [] || r == rendered)
    ensures Consistent(elements, edges, r, PlaceAll(coords, r[|rendered|..], |rendered|, slot))
  {
    PlaceAllKeys(coords, r[|rendered|..], |rendered|, slot);
    if rendered == [] {
      assert r[|rendered|..] == r;
    } else {
      assert r[|rendered|..] == [];
    }
  }

  /** Adding names keeps the diagram consistent. */
  lemma AddNamesConsistent(elements: seq<Element>, edges: seq<Edge>, rendered: seq<Element>,
                           coords: map<string, Coord>, names: seq<string>)
    requires Consistent(elements, edges, rendered, coords)
    ensures Consistent(AddNames(elements, names), edges, rendered, coords)
  {
    var after := AddNames(elements, names);
    AddNamesDistinct(elements, names);
    assert after[..|elements|] == elements;
    forall e | e in edges ensures e.from in after && e.to in after {
      var i :| 0 <= i < |elements| && elements[i] == e.from;
      var j :| 0 <= j < |elements| && elements[j] == e.to;
      assert after[i] == e.from && after[j] == e.to;
    }
    assert after[..|rendered|] == elements[..|rendered|];
  }

  /** Adding an edge between the elements of two present names keeps the
      diagram consistent. */
  lemma ConnectConsistent(elements: seq<Element>, edges: seq<Edge>, rendered: seq<Element>,
                          coords: map<string, Coord>, from: string, to: string, directional: bool, labelText: string)
    requires Consistent(elements, edges, rendered, coords)
    requires from in Names(elements) && to in Names(elements)
    ensures Consistent(elements, edges + [Edge(FindLast(elements, from).value, FindLast(elements, to).value,
                                              directional, labelText)], rendered, coords)
  {
  }

  /** Whatever the lines add, the diagram stays consistent. */
  lemma ApplyLinesConsistent(c: Contents, lines: seq<string>, rendered: seq<Element>, coords: map<string, Coord>)
    requires Consistent(c.elements, c.edges, rendered, coords)
    ensures Consistent(ApplyLines(c, lines).elements, ApplyLines(c, lines).edges, rendered, coords)
  {
    ApplyLinesWellFormed(c, lines);
    ApplyLinesElements(c, lines);
    PrefixGrows(rendered, c.elements, ApplyLines(c, lines).elements);
  }

  /** A prefix of a prefix is a prefix. */
  lemma PrefixGrows(r: seq<Element>, a: seq<Element>, b: seq<Element>)
    requires r <= a && |a| <= |b| && b[..|a|] == a
    ensures r <= b
  {
    assert b[..|r|] == a[..|r|];
  }

  class Diagram {
    var elements: seq<Element>
    var edges: seq<Edge>
    var rendered: seq<Element>
    var coords: map<string, Coord>
    var title: string
    var filename: string

    /** The part of the diagram that parsing fills in. */
    function Content(): Contents
      reads this
    {
      Contents(elements, edges)
    }

    /** What every method keeps. */
    ghost predicate Valid()
      reads this
    {
      Consistent(elements, edges, rendered, coords)
    }

    /** `NewDiagram(filename)`: nothing added, nothing rendered, no title. */
    constructor (filename: string)
      ensures Valid()
      ensures elements == [] && edges == [] && rendered == [] && coords == map[]
      ensures title == [] && this.filename == filename
    {
      elements := [];
      edges := [];
      rendered := [];
      coords := map[];
      title := [];
      this.filename := filename;
    }

    /** `AddElemenets(name...)`: each name, in order, appended as a rectangle
        unless an element of that name is already there. */
    method AddElements(names: seq<string>)
      requires Valid()
      modifies this
      ensures Valid()
      ensures elements == AddNames(old(elements), names)
      ensures edges == old(edges) && rendered == old(rendered) && coords == old(coords)
      ensures title == old(title) && filename == old(filename)
    {
      var els := elements;
      for k := 0 to |names|
        invariant els == AddNames(old(elements), names[..k])
        modifies {}
      {
        var n := names[k];
        var skipAdd := HasName(els, n);
        AddNamesPrefixStep(old(elements), names, k);
        if !skipAdd {
          els := els + [Element(n, Rect)];
        }
      }
      assert names[..|names|] == names;
      AddNamesConsistent(elements, edges, rendered, coords, names);
      elements := els;
    }

    /** The lookup loop shared by `AddConnection` and
        `AddDirectionalConnection`: the last element of each name, if any. */
    method FindEnds(from: string, to: string) returns (fromPar: Option<Element>, toPar: Option<Element>)
      ensures fromPar.Some? <==> from in Names(elements)
      ensures toPar.Some? <==> to in Names(elements)
      ensures fromPar == FindLast(elements, from) && toPar == FindLast(elements, to)
    {
      fromPar := None;
      toPar := None;
      for i := 0 to |elements|
        invariant fromPar == FindLast(elements[..i], from)
        invariant toPar == FindLast(elements[..i], to)
      {
        FindLastSnoc(elements, i, from);
        FindLastSnoc(elements, i, to);
        if elements[i].name == from {
          fromPar := Some(elements[i]);
        }
        if elements[i].name == to {
          toPar := Some(elements[i]);
        }
      }
      assert elements[..|elements|] == elements;
    }

    /** `AddDirectionalConnection(from, to, label)`: an arrowed edge between
        the elements of the two names. A missing name makes the source panic,
        so both must be there. */
    method AddDirectionalConnection(from: string, to: string, labelText: string)
      requires Valid()
      requires from in Names(elements) && to in Names(elements)
      modifies this
      ensures Valid()
      ensures elements == old(elements) && rendered == old(rendered) && coords == old(coords)
      ensures edges == old(edges) +
        [Edge(FindLast(elements, from).value, FindLast(elements, to).value, true, labelText)]
      ensures title == old(title) && filename == old(filename)
    {
      var fromPar, toPar := FindEnds(from, to);
      ConnectConsistent(elements, edges, rendered, coords, from, to, true, labelText);
      edges := edges + [Edge(fromPar.value, toPar.value, true, labelText)];
    }

    /** `AddConnection(from, to, label)`: a plain edge between the elements of
        the two names, or an error and no change when either is missing. */
    method AddConnection(from: string, to: string, labelText: string) returns (r: Outcome)
      requires Valid()
      modifies this
      ensures Valid()
      ensures elements == old(elements) && rendered == old(rendered) && coords == old(coords)
      ensures r == Success <==> from in Names(elements) && to in Names(elements)
      ensures r == Success ==>
        edges == old(edges) + [Edge(FindLast(elements, from).value, FindLast(elements, to).value, false, labelText)]
      ensures r == ElementNotFound ==> edges == old(edges)
      ensures title == old(title) && filename == old(filename)
    {
      var fromPar, toPar := FindEnds(from, to);
      if fromPar.None? || toPar.None? {
        return ElementNotFound;
      }
      ConnectConsistent(elements, edges, rendered, coords, from, to, false, labelText);
      edges := edges + [Edge(fromPar.value, toPar.value, false, labelText)];
      r := Success;
    }

    /** `SetTitle(title)`. */
    method SetTitle(t: string)
      requires Valid()
      modifies this
      ensures Valid()
      ensures title == t
      ensures elements == old(elements) && edges == old(edges)
      ensures rendered == old(rendered) && coords == old(coords) && filename == old(filename)
    {
      title := t;
    }

    /** `ProcessData(data)`: a title line first sets the title and is dropped;
        the other lines are read in order (AddLines). */
    method ProcessData(data: string)
      requires Valid()
      modifies this
      ensures Valid()
      ensures title == (if TitleOf(data).Some? then TitleOf(data).value else old(title))
      ensures Content() == ApplyLines(old(Content()), BodyLines(data))
      ensures rendered == old(rendered) && coords == old(coords) && filename == old(filename)
    {
      var sliceData := Split(data, '\n');
      var firstLine := sliceData[0];
      var matches := MatchTitle(firstLine);
      if matches.Some? {
        sliceData := sliceData[1..];
        SetTitle(matches.value);
      }
      assert sliceData == BodyLines(data);
      AddLines(sliceData);
    }

    /** The line loop of `ProcessData`: each line is parsed (ParseLine) and,
        when it reads as a relation, added (AddRelation). */
    method AddLines(sliceData: seq<string>)
      requires Valid()
      modifies this
      ensures Valid()
      ensures Content() == ApplyLines(old(Content()), sliceData)
      ensures title == old(title) && rendered == old(rendered) && coords == old(coords)
      ensures filename == old(filename)
    {
      for i := 0 to |sliceData|
        invariant Valid()
        invariant Content() == ApplyLines(old(Content()), sliceData[..i])
        invariant title == old(title) && rendered == old(rendered) && coords == old(coords)
        invariant filename == old(filename)
      {
        ApplyLinesPrefixStep(old(Content()), sliceData, i);
        var relation := ParseLine(sliceData[i]);
        if relation.Some? {
          AddRelation(relation.value);
        }
      }
      assert sliceData[..|sliceData|] == sliceData;
    }

    /** What the line loop of `ProcessData` does with a line that reads as a
        relation: add both names, then connect them, with an arrow head when
        the relation is directional. */
    method AddRelation(r: Relation)
      requires Valid()
      modifies this
      ensures Valid()
      ensures Content() == Connect(old(Content()), r)
      ensures title == old(title) && rendered == old(rendered) && coords == old(coords)
      ensures filename == old(filename)
    {
      AddElements([r.from, r.to]);
      assert r.from in [r.from, r.to] && r.to in [r.from, r.to];
      if r.directional {
        AddDirectionalConnection(r.from, r.to, r.labelText);
      } else {
        var _ := AddConnection(r.from, r.to, r.labelText);
      }
      ConnectInSteps(old(Content()), r, elements, edges);
    }

    /** `renderElemenets` on a canvas canvasWidth pixels wide: the pass of
        RenderPass over the diagram's lists, whose outcome becomes the new
        rendered list and box map. */
    method RenderElements(canvasWidth: nat, measure: string -> Extent) returns (nodes: seq<NodePlacement>)
      requires Valid()
      modifies this
      ensures Valid()
      ensures rendered == RenderedAfter(elements, old(rendered))
      ensures coords == PlaceAll(old(coords), rendered[|old(rendered)|..], |old(rendered)|, Slot(canvasWidth, |elements|))
      ensures nodes == PlaceNodes(rendered[|old(rendered)|..], |old(rendered)|, Slot(canvasWidth, |elements|), |edges|, measure)
      ensures elements == old(elements) && edges == old(edges)
      ensures title == old(title) && filename == old(filename)
    {
      var r, c;
      r, c, nodes := RenderPass(elements, |edges|, rendered, coords, canvasWidth, measure);
      RenderedAfterPrefix(elements, rendered);
      RenderPassConsistent(elements, edges, rendered, coords, r, Slot(canvasWidth, |elements|));
      rendered := r;
      coords := c;
    }

    /** `renderConnections`: the i-th edge on the i-th row below its source. */
    method RenderConnections(measure: string -> Extent) returns (placements: seq<EdgePlacement>)
      ensures |placements| == |edges|
      ensures forall i :: 0 <= i < |edges| ==>
        placements[i] == PlaceEdge(edges[i], i, coords, measure(edges[i].labelText))
    {
      var renderedEdges := 0;
      placements := [];
      for idx := 0 to |edges|
        invariant renderedEdges == idx == |placements|
        invariant forall i :: 0 <= i < idx ==>
          placements[i] == PlaceEdge(edges[i], i, coords, measure(edges[i].labelText))
      {
        var e := edges[idx];
        placements := placements + [PlaceEdge(e, renderedEdges, coords, measure(e.labelText))];
        renderedEdges := renderedEdges + 1;
      }
    }

    /** `Render(width, height, color)`: a canvas of the truncated size filled
        with the looked-up colour, then the title, the elements and the edges,
        saved under the diagram's file name with `.png` appended. A negative
        size gives a canvas of the absolute size, as the image rectangle is
        normalised. */
    method Render(width: real, height: real, color: string, measure: string -> Extent) returns (f: Frame)
      requires Valid()
      modifies this
      ensures Valid()
      ensures f.width == Magnitude(Colors.Trunc(width)) && f.height == Magnitude(Colors.Trunc(height))
      ensures f.background == Colors.Lookup(color)
      ensures f.titleAt == TitleAt(f.width, measure(title))
      ensures rendered == RenderedAfter(elements, old(rendered))
      ensures coords == PlaceAll(old(coords), rendered[|old(rendered)|..], |old(rendered)|, Slot(f.width, |elements|))
      ensures f.nodes == PlaceNodes(rendered[|old(rendered)|..], |old(rendered)|, Slot(f.width, |elements|), |edges|, measure)
      ensures |f.connections| == |edges|
      ensures forall i :: 0 <= i < |edges| ==>
        f.connections[i] == PlaceEdge(edges[i], i, coords, measure(edges[i].labelText))
      ensures f.output == filename + ".png"
      ensures elements == old(elements) && edges == old(edges)
      ensures title == old(title) && filename == old(filename)
    {
      var w := Magnitude(Colors.Trunc(width));
      var h := Magnitude(Colors.Trunc(height));
      var background := Colors.Lookup(color);
      var titleAt := TitleAt(w, measure(title));
      var nodes := RenderElements(w, measure);
      var connections := RenderConnections(measure);
      f := Frame(w, h, background, titleAt, nodes, connections, filename + ".png");
    }
  }
}
