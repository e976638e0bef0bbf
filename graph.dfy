/** The values a diagram is made of (zml_types.go): elements, which are named
    boxes, and edges between two of them; and the bookkeeping the diagram
    does on them when names are added and connections are looked up. */
module Graph {
  import opened Text

  /** The element types `RECT`, `DESCISION` and `CIRCLE`. */
  datatype Kind = Rect | Decision | Circle

  /** `elemenet`: a name and a type. */
  datatype Element = Element(name: string, kind: Kind)

  /** `edge`: copies of the two end elements, whether it is drawn with an
      arrow head, and its label. */
  datatype Edge = Edge(from: Element, to: Element, directional: bool, labelText: string)

  /** The names of els, in order. */
  function Names(els: seq<Element>): (ns: seq<string>)
    ensures |ns| == |els|
    ensures forall i :: 0 <= i < |els| ==> ns[i] == els[i].name
  {
    seq(|els|, i requires 0 <= i < |els| => els[i].name)
  }

  /** A name that no element has is not among the names. */
  lemma NamesAbsent(els: seq<Element>, n: string)
    requires forall j :: 0 <= j < |els| ==> els[j].name != n
    ensures n !in Names(els)
  {
  }

  /** The name of each element is among the names. */
  lemma NamePresent(els: seq<Element>, i: nat)
    requires i < |els|
    ensures els[i].name in Names(els)
  {
    assert Names(els)[i] == els[i].name;
  }

  /** No name occurs twice. */
  predicate DistinctNames(els: seq<Element>) {
    forall i, j :: 0 <= i < j < |els| ==> els[i].name != els[j].name
  }

  /** One step of `AddElemenets`: a name that is already there is skipped,
      a new one is appended as a rectangle. */
  function AddName(els: seq<Element>, n: string): (r: seq<Element>)
    ensures n in Names(r)
    ensures n in Names(els) ==> r == els
    ensures n !in Names(els) ==> r == els + [Element(n, Rect)]
  {
    if n in Names(els) then els
    else
      NamesSnoc(els, Element(n, Rect));
      els + [Element(n, Rect)]
  }

  lemma NamesSnoc(els: seq<Element>, e: Element)
    ensures Names(els + [e]) == Names(els) + [e.name]
  {
  }

  /** `AddElemenets(names...)` on the element list: the names in argument
      order, each added unless an element of that name is already there. */
  function AddNames(els: seq<Element>, names: seq<string>): (r: seq<Element>)
    ensures |els| <= |r| <= |els| + |names| && r[..|els|] == els
    ensures forall n :: n in names ==> n in Names(r)
    ensures forall i :: |els| <= i < |r| ==>
              r[i].kind == Rect && r[i].name in names && r[i].name !in Names(els)
    decreases |names|
  {
    if names == [] then els
    else
      var e1 := AddName(els, names[0]);
      var r := AddNames(e1, names[1..]);
      assert forall n :: n in names ==> n == names[0] || n in names[1..];
      assert r[..|els|] == e1[..|els|];
      assert forall i :: |els| <= i < |r| ==>
          r[i].kind == Rect && r[i].name in names && r[i].name !in Names(els) by {
        forall i | |els| <= i < |r|
          ensures r[i].kind == Rect && r[i].name in names && r[i].name !in Names(els)
        {
          if i < |e1| {
            assert r[i] == e1[i] == Element(names[0], Rect);
          } else {
            assert r[i].name in names[1..] && r[i].name !in Names(e1);
            if e1 != els {
              NamesSnoc(els, Element(names[0], Rect));
            }
          }
        }
      }
      r
  }

  /** Adding names keeps the names distinct. */
  lemma {:induction false} AddNamesDistinct(els: seq<Element>, names: seq<string>)
    requires DistinctNames(els)
    ensures DistinctNames(AddNames(els, names))
    decreases |names|
  {
    if names != [] {
      var e1 := AddName(els, names[0]);
      assert DistinctNames(e1);
      AddNamesDistinct(e1, names[1..]);
    }
  }

  /** Adding a + b is adding a, then b. */
  lemma {:induction false} AddNamesAppend(els: seq<Element>, a: seq<string>, b: seq<string>)
    ensures AddNames(els, a + b) == AddNames(AddNames(els, a), b)
    decreases |a|
  {
    if a == [] {
      assert a + b == b;
    } else {
      assert (a + b)[0] == a[0];
      assert (a + b)[1..] == a[1..] + b;
      AddNamesAppend(AddName(els, a[0]), a[1..], b);
    }
  }

  /** Adding one more name at the end is one more AddName step. */
  lemma AddNamesSnoc(els: seq<Element>, names: seq<string>, n: string)
    ensures AddNames(els, names + [n]) == AddName(AddNames(els, names), n)
  {
    AddNamesAppend(els, names, [n]);
    assert [n][1..] == [];
  }

  /** Adding the first k + 1 names is adding the first k, then name k. */
  lemma AddNamesPrefixStep(els: seq<Element>, names: seq<string>, k: nat)
    requires k < |names|
    ensures AddNames(els, names[..k + 1]) == AddName(AddNames(els, names[..k]), names[k])
  {
    assert names[..k + 1] == names[..k] + [names[k]];
    AddNamesSnoc(els, names[..k], names[k]);
  }

  /** Names that are all present already add nothing. */
  lemma {:induction false} AddNamesPresent(els: seq<Element>, names: seq<string>)
    requires forall n :: n in names ==> n in Names(els)
    ensures AddNames(els, names) == els
    decreases |names|
  {
    if names != [] {
      assert names[0] in names;
      assert forall n :: n in names[1..] ==> n in names;
      AddNamesPresent(els, names[1..]);
    }
  }

  /** Adding the same names twice is adding them once. */
  lemma AddNamesIdempotent(els: seq<Element>, names: seq<string>)
    ensures AddNames(AddNames(els, names), names) == AddNames(els, names)
  {
    AddNamesPresent(AddNames(els, names), names);
  }

  /** New elements come in the order their names first appear: adding
      "A", "B", "A" to nothing gives A then B. */
  lemma AddNamesFirstOccurrence()
    ensures AddNames([], ["A", "B", "A"]) == [Element("A", Rect), Element("B", Rect)]
  {
    assert Names([Element("A", Rect)]) == ["A"];
    assert Names([Element("A", Rect), Element("B", Rect)]) == ["A", "B"];
  }

  /** The element that the lookup loops of `AddConnection` and
      `AddDirectionalConnection` keep: the last one of that name, or None. */
  function FindLast(els: seq<Element>, name: string): (r: Option<Element>)
    ensures r.Some? <==> name in Names(els)
    ensures r.Some? ==> r.value.name == name && r.value in els
  {
    if els == [] then None
    else if els[|els| - 1].name == name then Some(els[|els| - 1])
    else
      var r := FindLast(els[..|els| - 1], name);
      assert Names(els) == Names(els[..|els| - 1]) + [els[|els| - 1].name];
      r
  }

  /** Looking one element further: it wins when its name matches. */
  lemma FindLastSnoc(els: seq<Element>, i: nat, name: string)
    requires i < |els|
    ensures FindLast(els[..i + 1], name) ==
              if els[i].name == name then Some(els[i]) else FindLast(els[..i], name)
  {
    assert els[..i + 1][..i] == els[..i];
  }

  /** With distinct names, the element found is the one at the name's position. */
  lemma FindLastDistinct(els: seq<Element>, i: nat)
    requires DistinctNames(els) && i < |els|
    ensures FindLast(els, els[i].name) == Some(els[i])
  {
    var r := FindLast(els, els[i].name);
    var j :| 0 <= j < |els| && els[j] == r.value;
    assert els[j].name == els[i].name;
  }
}
