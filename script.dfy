/** What `ProcessData` makes of a ZML text, as functions on values: the
    title line, the relation lines and the elements and edges they add. The
    `Diagram` class in module Zml carries this out step by step and is
    proved to end in the state these functions describe. */
module Script {
  import opened Text
  import opened Patterns
  import opened Graph

  /** One relation line as `ProcessData` reads it: the two names with their
      spaces trimmed, whether the arrow ends in `>`, and the label group as
      captured (a label after `:` keeps its leading space). */
  datatype Relation = Relation(from: string, to: string, directional: bool, labelText: string)

  /** The part of a diagram that parsing fills in. */
  datatype Contents = Contents(elements: seq<Element>, edges: seq<Edge>)

  /** Lines `ProcessData` passes over without matching: empty lines and
      comments starting with `#` or `//`. */
  predicate IsSkipped(line: string) {
    line == [] || HasPrefix(line, "#") || HasPrefix(line, "//")
  }

  /** The relation a line describes, or None for a skipped line or one the
      relation pattern does not match. */
  function ParseLine(line: string): (r: Option<Relation>)
    ensures r.Some? ==> Trimmed(r.value.from) && Trimmed(r.value.to)
  {
    if IsSkipped(line) then None
    else
      match MatchRelation(line)
      case None => None
      case Some(g) => Some(Relation(Trim(g.from), Trim(g.to), g.arrow[|g.arrow| - 1] == '>', g.labelText))
  }

  /** A line reads as a relation exactly when it is not skipped and the
      relation pattern matches it; the names and the label are the groups of
      the preferred match, and the relation is directional exactly when its
      arrow has a `>`. */
  lemma ParseLineSpec(line: string)
    ensures ParseLine(line).Some? <==> !IsSkipped(line) && exists s :: IsRelationMatch(line, s)
    ensures ParseLine(line).Some? ==>
              exists s :: IsPreferredRelationMatch(line, s) && ParseLine(line).value ==
                Relation(Trim(line[s.a..s.b]), Trim(line[s.h..s.k]), s.d < s.g, line[s.n..s.z])
  {
    MatchRelationSpec(line);
    if ParseLine(line).Some? {
      var s := FindRelation(line).value;
      FindRelationPreferred(line);
      var arrow := line[s.c..s.g];
      assert arrow[|arrow| - 1] == line[s.g - 1];
      assert InClass(line[s.g - 1], if s.d < s.g then Gt else Dash);
    }
  }

  /** The skip test never rejects a line the pattern would accept: empty
      lines and comment lines do not match the relation pattern anyway. */
  lemma SkippedLinesDoNotMatch(line: string)
    requires IsSkipped(line)
    ensures MatchRelation(line) == None
  {
    if line != [] {
      assert line[0] == '#' || line[0] == '/';
      assert !InClass(line[0], NameChar);
    }
  }

  /** A relation added to the contents: both names added as elements, then
      an edge between the elements of those names. */
  function Connect(c: Contents, r: Relation): (d: Contents)
    ensures d.elements == AddNames(c.elements, [r.from, r.to])
    ensures |d.edges| == |c.edges| + 1 && d.edges[..|c.edges|] == c.edges
    ensures var e := d.edges[|c.edges|];
      e.from.name == r.from && e.to.name == r.to && e.directional == r.directional &&
      e.labelText == r.labelText && e.from in d.elements && e.to in d.elements
  {
    var els := AddNames(c.elements, [r.from, r.to]);
    assert r.from in [r.from, r.to] && r.to in [r.from, r.to];
    var e := Edge(FindLast(els, r.from).value, FindLast(els, r.to).value, r.directional, r.labelText);
    assert (c.edges + [e])[..|c.edges|] == c.edges;
    Contents(els, c.edges + [e])
  }

  /** Connect, stated on the two steps `ProcessData` takes: the names added
      first, then the edge between the elements found under them. */
  lemma ConnectInSteps(c: Contents, r: Relation, elements: seq<Element>, edges: seq<Edge>)
    requires elements == AddNames(c.elements, [r.from, r.to])
    requires r.from in Names(elements) && r.to in Names(elements)
    requires edges == c.edges +
      [Edge(FindLast(elements, r.from).value, FindLast(elements, r.to).value, r.directional, r.labelText)]
    ensures Contents(elements, edges) == Connect(c, r)
  {
  }

  /** One line of the loop of `ProcessData`. */
  function Step(c: Contents, line: string): (d: Contents)
    ensures c.elements <= d.elements
    ensures c.edges <= d.edges && |d.edges| <= |c.edges| + 1
  {
    match ParseLine(line)
    case None => c
    case Some(r) => Connect(c, r)
  }

  /** A line that is skipped, or that the pattern does not match, changes
      nothing. */
  lemma StepUnmatched(c: Contents, line: string)
    requires IsSkipped(line) || MatchRelation(line).None?
    ensures Step(c, line) == c
  {
  }

  /** A line the pattern matches adds the relation its groups describe. */
  lemma StepMatched(c: Contents, line: string)
    requires !IsSkipped(line) && MatchRelation(line).Some?
    ensures var g := MatchRelation(line).value;
      Step(c, line) == Connect(c, Relation(Trim(g.from), Trim(g.to), g.arrow[|g.arrow| - 1] == '>', g.labelText))
  {
  }

  /** The lines, one after the other. */
  function ApplyLines(c: Contents, lines: seq<string>): (d: Contents)
    ensures c.elements <= d.elements
    ensures c.edges <= d.edges && |d.edges| <= |c.edges| + |lines|
    decreases |lines|
  {
    if lines == [] then c
    else
      var b := ApplyLines(c, lines[..|lines| - 1]);
      var d := Step(b, lines[|lines| - 1]);
      PrefixTrans(c.elements, b.elements, d.elements);
      PrefixTrans(c.edges, b.edges, d.edges);
      d
  }

  /** Reading the first i + 1 lines is reading the first i, then line i. */
  lemma ApplyLinesPrefixStep(c: Contents, lines: seq<string>, i: nat)
    requires i < |lines|
    ensures ApplyLines(c, lines[..i + 1]) == Step(ApplyLines(c, lines[..i]), lines[i])
  {
    assert lines[..i + 1][..i] == lines[..i];
  }

  /** The relations the lines describe, in order. */
  function Relations(lines: seq<string>): seq<Relation>
    decreases |lines|
  {
    if lines == [] then []
    else
      var n := |lines| - 1;
      Relations(lines[..n]) + Parsed(lines[n])
  }

  /** The relation a line describes, as a sequence of none or one. */
  function Parsed(line: string): seq<Relation> {
    match ParseLine(line)
    case None => []
    case Some(r) => [r]
  }

  /** The names the relations mention, source before target, in order. */
  function Endpoints(rels: seq<Relation>): (ns: seq<string>)
    ensures |ns| == 2 * |rels|
    decreases |rels|
  {
    if rels == [] then []
    else
      var n := |rels| - 1;
      Endpoints(rels[..n]) + [rels[n].from, rels[n].to]
  }

  /** An edge as a relation records it. */
  predicate EdgeFor(e: Edge, r: Relation) {
    e.from.name == r.from && e.to.name == r.to && e.directional == r.directional && e.labelText == r.labelText
  }

  /** What the lines do to the elements: the old ones plus every new name
      the relations mention, in order of first mention. */
  lemma {:induction false} ApplyLinesElements(c: Contents, lines: seq<string>)
    ensures ApplyLines(c, lines).elements == AddNames(c.elements, Endpoints(Relations(lines)))
    decreases |lines|
  {
    if lines != [] {
      var n := |lines| - 1;
      var rs := Relations(lines[..n]);
      ApplyLinesElements(c, lines[..n]);
      assert ApplyLines(c, lines) == Step(ApplyLines(c, lines[..n]), lines[n]);
      assert Relations(lines) == rs + Parsed(lines[n]);
      if ParseLine(lines[n]).Some? {
        var r := ParseLine(lines[n]).value;
        assert Parsed(lines[n]) == [r];
        assert (rs + [r])[..|rs|] == rs;
        assert Endpoints(rs + [r]) == Endpoints(rs) + [r.from, r.to];
        AddNamesAppend(c.elements, Endpoints(rs), [r.from, r.to]);
      } else {
        assert Relations(lines) == rs + [] == rs;
      }
    }
  }

  /** e records the relations rs after the first |e0| edges, which are e0. */
  predicate Records(e: seq<Edge>, e0: seq<Edge>, rs: seq<Relation>) {
    && |e| == |e0| + |rs| && e[..|e0|] == e0
    && forall j :: 0 <= j < |rs| ==> EdgeFor(e[|e0| + j], rs[j])
  }

  /** One line adds one edge per relation it describes. */
  lemma StepEdges(c: Contents, line: string)
    ensures Records(Step(c, line).edges, c.edges, Parsed(line))
  {
    if ParseLine(line).None? {
      assert c.edges[..|c.edges|] == c.edges;
    }
  }

  /** Recording rs, then ps, is recording rs + ps. */
  lemma RecordsAppend(e0: seq<Edge>, e1: seq<Edge>, rs: seq<Relation>, e2: seq<Edge>, ps: seq<Relation>)
    requires Records(e1, e0, rs) && Records(e2, e1, ps)
    ensures Records(e2, e0, rs + ps)
  {
    assert e2[..|e0|] == e2[..|e1|][..|e0|];
    forall j | 0 <= j < |rs + ps|
      ensures EdgeFor(e2[|e0| + j], (rs + ps)[j])
    {
      if j < |rs| {
        assert e2[|e0| + j] == e2[..|e1|][|e0| + j];
      } else {
        assert e2[|e0| + j] == e2[|e1| + (j - |rs|)];
      }
    }
  }

  /** What the lines do to the edges: the old ones kept, then one per
      relation, in order. */
  lemma {:induction false} ApplyLinesEdges(c: Contents, lines: seq<string>)
    ensures Records(ApplyLines(c, lines).edges, c.edges, Relations(lines))
    decreases |lines|
  {
    if lines == [] {
      assert c.edges[..|c.edges|] == c.edges;
    } else {
      var n := |lines| - 1;
      var c1 := ApplyLines(c, lines[..n]);
      ApplyLinesEdges(c, lines[..n]);
      StepEdges(c1, lines[n]);
      RecordsAppend(c.edges, c1.edges, Relations(lines[..n]), Step(c1, lines[n]).edges, Parsed(lines[n]));
    }
  }

  /** Contents every name of which is distinct and every edge of which joins
      two of its elements. */
  predicate WellFormed(c: Contents) {
    DistinctNames(c.elements) && forall e :: e in c.edges ==> e.from in c.elements && e.to in c.elements
  }

  /** Reading lines keeps the contents well formed. */
  lemma {:induction false} ApplyLinesWellFormed(c: Contents, lines: seq<string>)
    requires WellFormed(c)
    ensures WellFormed(ApplyLines(c, lines))
    decreases |lines|
  {
    if lines != [] {
      var n := |lines| - 1;
      var c1 := ApplyLines(c, lines[..n]);
      ApplyLinesWellFormed(c, lines[..n]);
      match ParseLine(lines[n])
      case None =>
      case Some(r) => ConnectWellFormed(c1, r);
    }
  }

  /** Connecting two names keeps the contents well formed. */
  lemma ConnectWellFormed(c: Contents, r: Relation)
    requires WellFormed(c)
    ensures WellFormed(Connect(c, r))
  {
    var d := Connect(c, r);
    AddNamesDistinct(c.elements, [r.from, r.to]);
    assert d.elements[..|c.elements|] == c.elements;
    forall e | e in d.edges ensures e.from in d.elements && e.to in d.elements {
      if e in c.edges {
        assert e.from in c.elements && e.to in c.elements;
      } else {
        assert e == d.edges[|c.edges|];
      }
    }
  }

  /** Reading a + b is reading a, then b. */
  lemma {:induction false} ApplyLinesAppend(c: Contents, a: seq<string>, b: seq<string>)
    ensures ApplyLines(c, a + b) == ApplyLines(ApplyLines(c, a), b)
    decreases |b|
  {
    if b == [] {
      assert a + b == a;
    } else {
      var n := |b| - 1;
      assert (a + b)[..|a + b| - 1] == a + b[..n];
      assert (a + b)[|a + b| - 1] == b[n];
      ApplyLinesAppend(c, a, b[..n]);
    }
  }

  /** Lines that are all comments or empty change nothing. */
  lemma {:induction false} SkippedLinesKeep(c: Contents, lines: seq<string>)
    requires forall k :: 0 <= k < |lines| ==> IsSkipped(lines[k])
    ensures ApplyLines(c, lines) == c
    decreases |lines|
  {
    if lines != [] {
      var n := |lines| - 1;
      SkippedLinesKeep(c, lines[..n]);
      assert ParseLine(lines[n]) == None;
    }
  }

  /** A prefix of a prefix is a prefix. */
  lemma PrefixTrans<T>(a: seq<T>, b: seq<T>, c: seq<T>)
    requires a <= b && b <= c
    ensures a <= c
  {
    assert c[..|a|] == b[..|a|];
  }

  /** Comment and empty lines, wherever they stand, leave the contents as
      they are: reading them after other lines changes nothing. */
  lemma CommentsIgnored(c: Contents, lines: seq<string>, comments: seq<string>)
    requires forall k :: 0 <= k < |comments| ==> IsSkipped(comments[k])
    ensures ApplyLines(c, lines + comments) == ApplyLines(c, lines)
  {
    ApplyLinesAppend(c, lines, comments);
    SkippedLinesKeep(ApplyLines(c, lines), comments);
  }

  /** The title the first line sets, if it is a title line. */
  function TitleOf(data: string): (t: Option<string>)
    ensures t.Some? ==> |t.value| > 0
    ensures t.Some? ==> forall k :: 0 <= k < |t.value| ==> InClass(t.value[k], TitleChar)
  {
    MatchTitle(Split(data, '\n')[0])
  }

  /** The lines the relation loop reads: every line of data, less the first
      when it was a title line. */
  function BodyLines(data: string): (lines: seq<string>)
    ensures TitleOf(data).Some? ==> [Split(data, '\n')[0]] + lines == Split(data, '\n')
    ensures TitleOf(data).None? ==> lines == Split(data, '\n')
  {
    var lines := Split(data, '\n');
    if MatchTitle(lines[0]).Some? then lines[1..] else lines
  }

  /** A line that is not skipped and matches reads as the relation of its
      groups: names trimmed, directional when the arrow ends in `>`. */
  lemma ParseLineMatched(line: string, g: RelationGroups)
    requires !IsSkipped(line) && MatchRelation(line) == Some(g)
    ensures ParseLine(line) == Some(Relation(Trim(g.from), Trim(g.to), g.arrow[|g.arrow| - 1] == '>', g.labelText))
  {
  }

  /** A directional relation keeps the space after the colon in its label;
      spaces around names are trimmed. */
  lemma ParseDirectionalExample()
    ensures ParseLine("A -> B: x") == Some(Relation("A", "B", true, " x"))
  {
    var line := "A -> B: x";
    assert !IsSkipped(line) by {
      assert line[..1][0] == line[0] == line[..2][0];
    }
    DirectionalGroups();
    ParseLineMatched(line, RelationGroups("A ", "->", " B", " x"));
    PaddedNames();
    assert "->"[1] == '>';
  }

  lemma PaddedNames()
    ensures Trim("A ") == "A" && Trim(" B") == "B"
  {
    TrimAt("A ", 0, 1);
    TrimAt(" B", 1, 2);
    assert "A "[0..1] == "A" && " B"[1..2] == "B";
  }

  lemma DirectionalGroups()
    ensures MatchRelation("A -> B: x") == Some(RelationGroups("A ", "->", " B", " x"))
  {
    var line := "A -> B: x";
    DirectionalSpan();
    MatchRelationAt(line, RelationSpan(0, 2, 2, 3, 4, 4, 6, 6, 7, 9));
    assert line[0..2] == "A " && line[2..4] == "->" && line[4..6] == " B" && line[7..9] == " x";
  }

  lemma DirectionalSpan()
    ensures FindRelation("A -> B: x") == Some(RelationSpan(0, 2, 2, 3, 4, 4, 6, 6, 7, 9))
  {
    var line := "A -> B: x";
    RunEndAt(line, 0, 2, NameChar);
    RunEndAt(line, 2, 3, Dash);
    RunEndAt(line, 3, 4, Gt);
    RunEndAt(line, 4, 6, NameChar);
    RunEndAt(line, 7, 9, AnyButLf);
  }

  /** An arrow without `>` gives an undirected relation, and no colon an
      empty label. */
  lemma ParseUndirectedExample()
    ensures ParseLine("[B]--[A]") == Some(Relation("B", "A", false, ""))
  {
    var line := "[B]--[A]";
    assert !IsSkipped(line) by {
      assert line[..1][0] == line[0] == line[..2][0];
    }
    UndirectedGroups();
    ParseLineMatched(line, RelationGroups("B", "--", "A", ""));
    TrimKeeps("B");
    TrimKeeps("A");
    assert "--"[1] != '>';
  }

  lemma UndirectedGroups()
    ensures MatchRelation("[B]--[A]") == Some(RelationGroups("B", "--", "A", ""))
  {
    var line := "[B]--[A]";
    UndirectedSpan();
    MatchRelationAt(line, RelationSpan(1, 2, 3, 5, 5, 6, 7, 8, 8, 8));
    assert line[1..2] == "B" && line[3..5] == "--" && line[6..7] == "A" && line[8..8] == "";
  }

  lemma UndirectedSpan()
    ensures FindRelation("[B]--[A]") == Some(RelationSpan(1, 2, 3, 5, 5, 6, 7, 8, 8, 8))
  {
    var line := "[B]--[A]";
    RunEndAt(line, 1, 2, NameChar);
    RunEndAt(line, 3, 5, Dash);
    RunEndAt(line, 5, 5, Gt);
    RunEndAt(line, 6, 7, NameChar);
    RunEndAt(line, 8, 8, AnyButLf);
  }

  // ---------------------------------------------------------------------------
  // A whole document: a title line, a directional and an undirected relation
  // ---------------------------------------------------------------------------

  const DemoDocument: string := "title: Demo\nA->B: go\nB--C"

  /** The title line sets the title "Demo"; the two relation lines add A,
      B and C in order of first mention, an arrow from A to B labelled " go"
      (the space after the colon kept) and a plain line from B to C with an
      empty label. */
  lemma DemoDocumentReads()
    ensures TitleOf(DemoDocument) == Some("Demo")
    ensures ApplyLines(Contents([], []), BodyLines(DemoDocument)) ==
      Contents([Element("A", Rect), Element("B", Rect), Element("C", Rect)],
               [Edge(Element("A", Rect), Element("B", Rect), true, " go"),
                Edge(Element("B", Rect), Element("C", Rect), false, "")])
  {
    DemoBodyLines();
    DemoBody();
    DemoConnect();
  }

  lemma DemoBodyLines()
    ensures TitleOf(DemoDocument) == Some("Demo")
    ensures BodyLines(DemoDocument) == ["A->B: go", "B--C"]
  {
    DemoLines();
    DemoTitle();
  }

  lemma DemoBody()
    ensures ApplyLines(Contents([], []), ["A->B: go", "B--C"]) ==
      Connect(Connect(Contents([], []), Relation("A", "B", true, " go")), Relation("B", "C", false, ""))
  {
    var body := ["A->B: go", "B--C"];
    assert body[..1] == ["A->B: go"];
    assert ["A->B: go"][..0] == [];
    DemoArrow();
    DemoPlain();
  }

  lemma DemoLines()
    ensures Split(DemoDocument, '\n') == ["title: Demo", "A->B: go", "B--C"]
  {
    assert DemoDocument == "title: Demo" + ['\n'] + ("A->B: go" + ['\n'] + "B--C");
    SplitThree("title: Demo", "A->B: go", "B--C", '\n');
  }

  /** Three pieces without the separator, joined by it, split back. */
  lemma SplitThree(a: string, b: string, c: string, sep: char)
    requires sep !in a && sep !in b && sep !in c
    ensures Split(a + [sep] + (b + [sep] + c), sep) == [a, b, c]
  {
    IndexOfAbsent(c, sep);
    assert Split(c, sep) == [c];
    SplitCons(b, c, sep);
    SplitCons(a, b + [sep] + c, sep);
  }

  lemma DemoTitle()
    ensures MatchTitle("title: Demo") == Some("Demo")
  {
    var line := "title: Demo";
    assert line[0..5] == "title";
    RunEndAt(line, 5, 5, Space);
    RunEndAt(line, 6, 7, Space);
    RunEndAt(line, 7, 11, TitleChar);
    assert FindTitle(line) == Some(TitleSpan(0, 5, 5, 7, 11));
    assert line[7..11] == "Demo";
  }

  lemma DemoArrow()
    ensures ParseLine("A->B: go") == Some(Relation("A", "B", true, " go"))
  {
    var line := "A->B: go";
    assert !IsSkipped(line) by {
      assert line[..1][0] == line[0] == line[..2][0];
    }
    DemoArrowGroups();
    ParseLineMatched(line, RelationGroups("A", "->", "B", " go"));
    TrimKeeps("A");
    TrimKeeps("B");
    assert "->"[1] == '>';
  }

  lemma DemoArrowGroups()
    ensures MatchRelation("A->B: go") == Some(RelationGroups("A", "->", "B", " go"))
  {
    var line := "A->B: go";
    DemoArrowSpan();
    MatchRelationAt(line, RelationSpan(0, 1, 1, 2, 3, 3, 4, 4, 5, 8));
    assert line[0..1] == "A" && line[1..3] == "->" && line[3..4] == "B" && line[5..8] == " go";
  }

  lemma DemoArrowSpan()
    ensures FindRelation("A->B: go") == Some(RelationSpan(0, 1, 1, 2, 3, 3, 4, 4, 5, 8))
  {
    var line := "A->B: go";
    RunEndAt(line, 0, 1, NameChar);
    RunEndAt(line, 1, 2, Dash);
    RunEndAt(line, 2, 3, Gt);
    RunEndAt(line, 3, 4, NameChar);
    RunEndAt(line, 5, 8, AnyButLf);
  }

  lemma DemoPlain()
    ensures ParseLine("B--C") == Some(Relation("B", "C", false, ""))
  {
    var line := "B--C";
    assert !IsSkipped(line) by {
      assert line[..1][0] == line[0] == line[..2][0];
    }
    DemoPlainGroups();
    ParseLineMatched(line, RelationGroups("B", "--", "C", ""));
    TrimKeeps("B");
    TrimKeeps("C");
    assert "--"[1] != '>';
  }

  lemma DemoPlainGroups()
    ensures MatchRelation("B--C") == Some(RelationGroups("B", "--", "C", ""))
  {
    var line := "B--C";
    DemoPlainSpan();
    MatchRelationAt(line, RelationSpan(0, 1, 1, 3, 3, 3, 4, 4, 4, 4));
    assert line[0..1] == "B" && line[1..3] == "--" && line[3..4] == "C" && line[4..4] == "";
  }

  lemma DemoPlainSpan()
    ensures FindRelation("B--C") == Some(RelationSpan(0, 1, 1, 3, 3, 3, 4, 4, 4, 4))
  {
    var line := "B--C";
    RunEndAt(line, 0, 1, NameChar);
    RunEndAt(line, 1, 3, Dash);
    RunEndAt(line, 3, 3, Gt);
    RunEndAt(line, 3, 4, NameChar);
    RunEndAt(line, 4, 4, AnyButLf);
  }

  lemma DemoConnect()
    ensures Connect(Connect(Contents([], []), Relation("A", "B", true, " go")), Relation("B", "C", false, "")) ==
      Contents([Element("A", Rect), Element("B", Rect), Element("C", Rect)],
               [Edge(Element("A", Rect), Element("B", Rect), true, " go"),
                Edge(Element("B", Rect), Element("C", Rect), false, "")])
  {
    DemoConnectAB();
    DemoConnectBC();
  }

  lemma DemoConnectAB()
    ensures Connect(Contents([], []), Relation("A", "B", true, " go")) ==
      Contents([Element("A", Rect), Element("B", Rect)],
               [Edge(Element("A", Rect), Element("B", Rect), true, " go")])
  {
    var a, b := Element("A", Rect), Element("B", Rect);
    assert Names([a]) == ["A"];
    assert AddNames([], ["A", "B"]) == [a, b];
    assert Names([a, b]) == ["A", "B"];
    assert [a, b][..1] == [a];
  }

  lemma DemoConnectBC()
    ensures Connect(Contents([Element("A", Rect), Element("B", Rect)],
                             [Edge(Element("A", Rect), Element("B", Rect), true, " go")]),
                    Relation("B", "C", false, "")) ==
      Contents([Element("A", Rect), Element("B", Rect), Element("C", Rect)],
               [Edge(Element("A", Rect), Element("B", Rect), true, " go"),
                Edge(Element("B", Rect), Element("C", Rect), false, "")])
  {
    var a, b, c := Element("A", Rect), Element("B", Rect), Element("C", Rect);
    assert Names([a, b]) == ["A", "B"];
    assert AddNames([a, b], ["B", "C"]) == [a, b, c];
    assert Names([a, b, c]) == ["A", "B", "C"];
    assert [a, b, c][..2] == [a, b] && [a, b][..1] == [a];
  }
}
