/** The outline normaliser of src/basic.rs: a walk over a glyph outline's XML
    tree that rewrites the `x` and `y` attributes of every `point` element to
    the nearest even integer, and a second walk that checks the result.

    The tree is given twice: as values (`Element`), on which the normalisation
    is specified and its properties are proved, and as objects (`XmlElement`),
    whose attributes the normaliser updates in place as the source does. */
module Outline {
  import opened Wrappers
  import opened Numbers

  /** A child of an XML element (xmltree's `XMLNode`); `E` is the element type. */
  datatype XmlNode<E> =
    | ElementNode(element: E)
    | Text(text: string)
    | Comment(comment: string)
    | CData(data: string)
    | ProcessingInstruction(target: string, content: Option<string>)

  /** An XML element as a value: its name, attribute map and ordered children. */
  datatype Element = Element(name: string, attributes: map<string, string>, children: seq<XmlNode<Element>>)

  // ---------------------------------------------------------------------------
  // Specification of `round_element_points`

  /** The attributes of an element after rounding: only the `x` and `y` of a
      `point` change, and a missing coordinate is not added. */
  function RoundedAttributes(name: string, attributes: map<string, string>): (r: map<string, string>)
    ensures r.Keys == attributes.Keys
    ensures forall key :: key in attributes ==>
              r[key] == if name == "point" && (key == "x" || key == "y")
                        then RoundToEven(attributes[key]) else attributes[key]
  {
    if name != "point" then attributes
    else
      var withX := if "x" in attributes then attributes["x" := RoundToEven(attributes["x"])] else attributes;
      if "y" in withX then withX["y" := RoundToEven(withX["y"])] else withX
  }

  /** The tree `round_element_points` leaves behind. */
  function RoundedElement(e: Element): Element
  {
    Element(e.name, RoundedAttributes(e.name, e.attributes),
            seq(|e.children|, k requires 0 <= k < |e.children| => RoundedNode(e.children[k])))
  }

  function RoundedNode(n: XmlNode<Element>): XmlNode<Element>
  {
    match n
    case ElementNode(e) => ElementNode(RoundedElement(e))
    case _ => n
  }

  // ---------------------------------------------------------------------------
  // Reference definitions: the elements of a tree, and the shape of a tree

  function Flatten<T>(ss: seq<seq<T>>): seq<T>
  {
    if ss == [] then [] else ss[0] + Flatten(ss[1..])
  }

  /** Every element of the tree rooted at `e`, in document order. */
  function Descendants(e: Element): seq<Element>
  {
    [e] + Flatten(seq(|e.children|, k requires 0 <= k < |e.children| => NodeDescendants(e.children[k])))
  }

  function NodeDescendants(n: XmlNode<Element>): seq<Element>
  {
    match n
    case ElementNode(e) => Descendants(e)
    case _ => []
  }

  /** `p` holds of every element of the tree rooted at `e`. */
  predicate Everywhere(e: Element, p: Element -> bool)
  {
    forall d :: d in Descendants(e) ==> p(d)
  }

  /** The check `verify_even_points` makes of one element under an evenness
      test: a `point` carrying both coordinates has both even; any other
      element passes. The code applies `AsWritten`. */
  function PointEven(test: EvenTest): Element -> bool
  {
    (e: Element) => CoordinatesEven(test, e.name, e.attributes)
  }

  predicate CoordinatesEven(test: EvenTest, name: string, attributes: map<string, string>)
  {
    (name == "point" && "x" in attributes && "y" in attributes)
    ==> IsEvenUnder(test, attributes["x"]) && IsEvenUnder(test, attributes["y"])
  }

  /** What a coordinate must be for its rounded text to pass `test`: not an
      infinity or NaN for the intended test; within the range of `i64` (or
      unparsable) for the as-written one. */
  predicate RoundsEven(test: EvenTest, value: string)
  {
    match test
    case Intended => !NonFinite(value)
    case AsWritten => FitsI64(value)
  }

  /** A `point` carrying both coordinates has both fit for rounding under `test`. */
  function PointRoundable(test: EvenTest): Element -> bool
  {
    (e: Element) => CoordinatesRoundable(test, e.name, e.attributes)
  }

  predicate CoordinatesRoundable(test: EvenTest, name: string, attributes: map<string, string>)
  {
    (name == "point" && "x" in attributes && "y" in attributes)
    ==> RoundsEven(test, attributes["x"]) && RoundsEven(test, attributes["y"])
  }

  /** `b` is `a` with, at most, other values for the `x` and `y` of its points:
      same names, same attribute keys, same children in the same order, and
      the same text, comments and other non-element children. */
  predicate SameShape(a: Element, b: Element)
  {
    && a.name == b.name
    && a.attributes.Keys == b.attributes.Keys
    && (forall key :: key in a.attributes && !(a.name == "point" && (key == "x" || key == "y"))
          ==> b.attributes[key] == a.attributes[key])
    && |a.children| == |b.children|
    && forall k :: 0 <= k < |a.children| ==> SameNodeShape(a.children[k], b.children[k])
  }

  predicate SameNodeShape(m: XmlNode<Element>, n: XmlNode<Element>)
  {
    if m.ElementNode? then n.ElementNode? && SameShape(m.element, n.element) else n == m
  }

  // ---------------------------------------------------------------------------
  // Lemmas

  lemma {:induction false} InFlatten<T>(ss: seq<seq<T>>, x: T)
    ensures x in Flatten(ss) <==> exists k :: 0 <= k < |ss| && x in ss[k]
  {
    if ss != [] {
      InFlatten(ss[1..], x);
      if x in Flatten(ss[1..]) {
        var k :| 0 <= k < |ss[1..]| && x in ss[1..][k];
        assert x in ss[k + 1];
      }
      if exists k :: 0 <= k < |ss| && x in ss[k] {
        var k :| 0 <= k < |ss| && x in ss[k];
        if k > 0 { assert x in ss[1..][k - 1]; }
      }
    }
  }

  /** A property holds everywhere in a tree exactly when it holds of the root
      and everywhere in the tree of each element child. */
  lemma EverywhereUnfold(e: Element, p: Element -> bool)
    ensures Everywhere(e, p) <==>
              && p(e)
              && forall k :: 0 <= k < |e.children| && e.children[k].ElementNode?
                   ==> Everywhere(e.children[k].element, p)
  {
    var ss := seq(|e.children|, k requires 0 <= k < |e.children| => NodeDescendants(e.children[k]));
    assert Descendants(e) == [e] + Flatten(ss);
    forall d | d in Flatten(ss)
      ensures exists k :: 0 <= k < |e.children| && e.children[k].ElementNode? && d in Descendants(e.children[k].element)
    {
      InFlatten(ss, d);
      var k :| 0 <= k < |ss| && d in ss[k];
    }
    forall k, d | 0 <= k < |e.children| && e.children[k].ElementNode? && d in Descendants(e.children[k].element)
      ensures d in Descendants(e)
    {
      assert d in ss[k];
      InFlatten(ss, d);
    }
  }

  lemma EverywhereRoot(e: Element, p: Element -> bool)
    requires !p(e)
    ensures !Everywhere(e, p)
  {
    assert e in Descendants(e);
  }

  lemma EverywhereChild(e: Element, p: Element -> bool, k: nat)
    requires k < |e.children| && e.children[k].ElementNode?
    requires !Everywhere(e.children[k].element, p)
    ensures !Everywhere(e, p)
  {
    EverywhereUnfold(e, p);
  }

  lemma EverywhereCompose(e: Element, p: Element -> bool)
    requires p(e)
    requires forall k :: 0 <= k < |e.children| && e.children[k].ElementNode? ==> Everywhere(e.children[k].element, p)
    ensures Everywhere(e, p)
  {
    EverywhereUnfold(e, p);
  }

  /** Rounding changes only the `x` and `y` of points: the tree keeps its shape. */
  lemma {:induction false} RoundedElementSameShape(e: Element)
    ensures SameShape(e, RoundedElement(e))
  {
    var r := RoundedElement(e);
    forall k | 0 <= k < |e.children|
      ensures SameNodeShape(e.children[k], r.children[k])
    {
      assert r.children[k] == RoundedNode(e.children[k]);
      if e.children[k].ElementNode? {
        RoundedElementSameShape(e.children[k].element);
      }
    }
  }

  /** After rounding, every point that has both coordinates has both even
      under `test`, provided every coordinate was fit for it: with the intended
      test, unless one was an infinity or NaN; with the as-written test, unless
      one was also outside the range of `i64`. */
  lemma {:induction false} RoundedPointsEven(test: EvenTest, e: Element)
    requires Everywhere(e, PointRoundable(test))
    ensures Everywhere(RoundedElement(e), PointEven(test))
  {
    var r := RoundedElement(e);
    EverywhereUnfold(e, PointRoundable(test));
    EverywhereUnfold(r, PointEven(test));
    RoundedPointEven(test, e);
    forall k | 0 <= k < |r.children| && r.children[k].ElementNode?
      ensures Everywhere(r.children[k].element, PointEven(test))
    {
      assert r.children[k] == RoundedNode(e.children[k]);
      RoundedPointsEven(test, e.children[k].element);
    }
  }

  /** The root alone: a rounded point with both coordinates has both even. */
  lemma RoundedPointEven(test: EvenTest, e: Element)
    requires PointRoundable(test)(e)
    ensures PointEven(test)(RoundedElement(e))
  {
    var r := RoundedElement(e);
    if r.name == "point" && "x" in r.attributes && "y" in r.attributes {
      RoundedCoordinateEven(test, e.attributes["x"]);
      RoundedCoordinateEven(test, e.attributes["y"]);
    }
  }

  lemma RoundedCoordinateEven(test: EvenTest, value: string)
    requires RoundsEven(test, value)
    ensures IsEvenUnder(test, RoundToEven(value))
  {
    match test
    case Intended => RoundToEvenIsEven(value);
    case AsWritten => RoundToEvenFitsAsWritten(value);
  }

  /** An infinite or NaN coordinate survives rounding and fails the check under either test. */
  lemma NonFinitePointFails(test: EvenTest, e: Element)
    requires e.name == "point" && "x" in e.attributes && "y" in e.attributes
    requires NonFinite(e.attributes["x"])
    ensures !Everywhere(RoundedElement(e), PointEven(test))
  {
    var r := RoundedElement(e);
    RoundToEvenNonFinite(e.attributes["x"]);
    assert !PointEven(test)(r);
    assert r in Descendants(r);
  }

  /** The saturating cast seen from a whole outline: a lone point at an even
      `x` above the range of `i64` passes the intended check after rounding,
      but the check as written reports it as not even. */
  lemma HugePointFailsAsWritten(n: nat)
    requires n > I64Max && n % 2 == 0
    ensures var e := Element("point", map["x" := IntToString(n), "y" := IntToString(0)], []);
            && Everywhere(RoundedElement(e), PointEven(Intended))
            && !Everywhere(RoundedElement(e), PointEven(AsWritten))
  {
    var e := Element("point", map["x" := IntToString(n), "y" := IntToString(0)], []);
    var r := RoundedElement(e);
    IsEvenAsWrittenRejectsHugeEven(n);
    RoundToEvenOfInteger(0);
    RoundToEvenIsEven(IntToString(0));
    assert r.attributes["x"] == IntToString(n);
    assert r.attributes["y"] == RoundToEven(IntToString(0));
    EverywhereUnfold(r, PointEven(Intended));
    assert !PointEven(AsWritten)(r);
    EverywhereRoot(r, PointEven(AsWritten));
  }

  lemma RoundedAttributesIdempotent(name: string, attributes: map<string, string>)
    ensures RoundedAttributes(name, RoundedAttributes(name, attributes)) == RoundedAttributes(name, attributes)
  {
    var once := RoundedAttributes(name, attributes);
    forall key | key in attributes && name == "point" && (key == "x" || key == "y")
      ensures RoundToEven(once[key]) == once[key]
    {
      RoundToEvenIdempotent(attributes[key]);
    }
  }

  /** Rounding a rounded tree changes nothing. */
  lemma {:induction false} RoundedElementIdempotent(e: Element)
    ensures RoundedElement(RoundedElement(e)) == RoundedElement(e)
  {
    var once := RoundedElement(e);
    RoundedAttributesIdempotent(e.name, e.attributes);
    forall k | 0 <= k < |e.children|
      ensures RoundedNode(once.children[k]) == once.children[k]
    {
      assert once.children[k] == RoundedNode(e.children[k]);
      if e.children[k].ElementNode? {
        RoundedElementIdempotent(e.children[k].element);
      }
    }
  }

  // ---------------------------------------------------------------------------
  // The tree as objects, updated in place

  /** The objects of the child elements in `children`. */
  ghost function ReprOf(children: seq<XmlNode<XmlElement>>): set<object>
  {
    if children == [] then {}
    else (if children[0].ElementNode? then children[0].element.Repr else {}) + ReprOf(children[1..])
  }

  /** An object is in `ReprOf(children)` exactly when it belongs to the footprint of one of the element children. */
  lemma {:induction false} ReprOfMember(children: seq<XmlNode<XmlElement>>, o: object)
    ensures o in ReprOf(children) <==>
              exists k :: 0 <= k < |children| && children[k].ElementNode? && o in children[k].element.Repr
  {
    if children != [] {
      var rest := children[1..];
      ReprOfMember(rest, o);
      if o in ReprOf(children) && !(children[0].ElementNode? && o in children[0].element.Repr) {
        var k :| 0 <= k < |rest| && rest[k].ElementNode? && o in rest[k].element.Repr;
        assert children[k + 1] == rest[k];
      }
      if k :| 0 <= k < |children| && children[k].ElementNode? && o in children[k].element.Repr {
        if k > 0 {
          assert rest[k - 1] == children[k];
        }
      }
    }
  }

  /** `ReprOfMember` for every object at once. */
  lemma ReprOfMembers(children: seq<XmlNode<XmlElement>>)
    ensures forall o: object :: o in ReprOf(children) <==>
              exists k :: 0 <= k < |children| && children[k].ElementNode? && o in children[k].element.Repr
  {
    forall o: object
      ensures o in ReprOf(children) <==>
              exists k :: 0 <= k < |children| && children[k].ElementNode? && o in children[k].element.Repr
    {
      ReprOfMember(children, o);
    }
  }

  lemma {:induction false} ReprOfChild(children: seq<XmlNode<XmlElement>>, k: nat)
    requires k < |children| && children[k].ElementNode?
    ensures children[k].element.Repr <= ReprOf(children)
  {
    if k > 0 {
      ReprOfChild(children[1..], k - 1);
      assert children[1..][k - 1] == children[k];
    }
  }

  /** `v` is the value of the child node `n`. */
  ghost predicate Holds(n: XmlNode<XmlElement>, v: XmlNode<Element>)
    reads if n.ElementNode? then n.element.Repr else {}
  {
    match n
    case ElementNode(c) => c.Valid() && v == ElementNode(c.Model())
    case Text(t) => v == Text(t)
    case Comment(t) => v == Comment(t)
    case CData(t) => v == CData(t)
    case ProcessingInstruction(t, c) => v == ProcessingInstruction(t, c)
  }

  /** An element of a parsed outline (xmltree's `Element`). Its name and its
      list of children are fixed; the normaliser updates `attributes` in place,
      here and in the elements below it. `Repr` is the element together with
      every element below it. */
  class XmlElement {
    const name: string
    var attributes: map<string, string>
    const children: seq<XmlNode<XmlElement>>
    ghost const Repr: set<object>

    /** The elements form a tree: `Repr` is this element and the parts of its
        child elements, and each child element owns a part that excludes this
        element and every sibling's part. */
    ghost predicate Valid()
      decreases Repr
    {
      && Repr == {this} + ReprOf(children)
      && (forall k :: 0 <= k < |children| && children[k].ElementNode? ==>
            && children[k].element in Repr
            && children[k].element.Repr <= Repr
            && this !in children[k].element.Repr
            && children[k].element.Valid())
      && (forall j, k :: 0 <= j < k < |children| && children[j].ElementNode? && children[k].ElementNode? ==>
            children[j].element.Repr !! children[k].element.Repr)
    }

    /** Builds an element over children that are already trees of their own,
        with no object shared between two of them. */
    constructor (name: string, attributes: map<string, string>, children: seq<XmlNode<XmlElement>>)
      requires forall k :: 0 <= k < |children| && children[k].ElementNode? ==> children[k].element.Valid()
      requires forall j, k :: 0 <= j < k < |children| && children[j].ElementNode? && children[k].ElementNode? ==>
                 children[j].element.Repr !! children[k].element.Repr
      ensures Valid() && Repr == {this} + ReprOf(children)
      ensures this.name == name && this.attributes == attributes && this.children == children
      ensures Model().name == name && Model().attributes == attributes
      ensures |Model().children| == |children|
      ensures forall k :: 0 <= k < |children| ==> Holds(children[k], Model().children[k])
    {
      this.name := name;
      this.attributes := attributes;
      this.children := children;
      Repr := {this} + ReprOf(children);
      new;
      forall k | 0 <= k < |children| && children[k].ElementNode?
        ensures children[k].element.Repr <= ReprOf(children)
      {
        ReprOfChild(children, k);
      }
      ChildModelsAt(|children|);
    }

    /** The value of the tree rooted here. */
    ghost function Model(): Element
      requires Valid()
      reads Repr
      decreases Repr, 2
    {
      Element(name, attributes, ChildModels(|children|))
    }

    ghost function ChildModels(n: nat): seq<XmlNode<Element>>
      requires Valid() && n <= |children|
      reads Repr
      decreases Repr, 1, n
    {
      if n == 0 then [] else ChildModels(n - 1) + [ChildModel(n - 1)]
    }

    /** The value of child `k`; it depends only on that child's own objects. */
    ghost function ChildModel(k: nat): XmlNode<Element>
      requires Valid() && k < |children|
      reads if k < |children| && children[k].ElementNode? then children[k].element.Repr else {}
      decreases Repr, 0
    {
      match children[k]
      case ElementNode(c) => ElementNode(c.Model())
      case Text(t) => Text(t)
      case Comment(t) => Comment(t)
      case CData(t) => CData(t)
      case ProcessingInstruction(t, c) => ProcessingInstruction(t, c)
    }

    lemma {:induction false} ChildModelsAt(n: nat)
      requires Valid() && n <= |children|
      ensures |ChildModels(n)| == n
      ensures forall k :: 0 <= k < n ==> ChildModels(n)[k] == ChildModel(k)
    {
      if n > 0 {
        ChildModelsAt(n - 1);
      }
    }

    /** `round_element_points`: rounds the `x` and `y` of every `point` in the
        tree rooted here, in place. */
    method RoundPoints()
      requires Valid()
      modifies Repr
      ensures Model() == RoundedElement(old(Model()))
      decreases Repr
    {
      ghost var before := Model();
      ChildModelsAt(|children|);
      RoundCoordinates();
      var i := 0;
      while i < |children|
        invariant i <= |children|
        invariant attributes == RoundedAttributes(name, before.attributes)
        invariant forall k :: 0 <= k < |children| ==>
                    ChildModel(k) == if k < i then RoundedNode(before.children[k]) else before.children[k]
      {
        if children[i].ElementNode? {
          children[i].element.RoundPoints();
        }
        i := i + 1;
      }
      ChildModelsAt(|children|);
    }

    /** The first half of `round_element_points`: this element's own coordinates. */
    method RoundCoordinates()
      modifies this
      ensures attributes == RoundedAttributes(name, old(attributes))
    {
      if name == "point" {
        if "x" in attributes {
          attributes := attributes["x" := RoundToEven(attributes["x"])];
        }
        if "y" in attributes {
          attributes := attributes["y" := RoundToEven(attributes["y"])];
        }
      }
    }

    /** `verify_even_points`: whether every `point` in the tree rooted here
        that carries both coordinates has both even under `test` (the code's
        is `AsWritten`). */
    method VerifyEvenPoints(test: EvenTest) returns (ok: bool)
      requires Valid()
      ensures ok == Everywhere(Model(), PointEven(test))
      decreases Repr
    {
      ghost var m := Model();
      ChildModelsAt(|children|);
      if !CoordinatesEven(test, name, attributes) {
        EverywhereRoot(m, PointEven(test));
        return false;
      }
      var i := 0;
      while i < |children|
        invariant i <= |children|
        invariant forall k :: 0 <= k < i && m.children[k].ElementNode? ==> Everywhere(m.children[k].element, PointEven(test))
      {
        if children[i].ElementNode? {
          var childOk := children[i].element.VerifyEvenPoints(test);
          assert m.children[i] == ElementNode(children[i].element.Model());
          if !childOk {
            EverywhereChild(m, PointEven(test), i);
            return false;
          }
        }
        i := i + 1;
      }
      EverywhereCompose(m, PointEven(test));
      return true;
    }

    /** The per-file step of `round_points_to_even` without its I/O: round the
        tree in place, then check it again under `test` (the code's is `AsWritten`). */
    method NormaliseOutline(test: EvenTest) returns (allEven: bool)
      requires Valid()
      modifies Repr
      ensures Model() == RoundedElement(old(Model()))
      ensures allEven == Everywhere(Model(), PointEven(test))
      ensures Everywhere(old(Model()), PointRoundable(test)) ==> allEven
    {
      ghost var before := Model();
      RoundPoints();
      allEven := VerifyEvenPoints(test);
      if Everywhere(before, PointRoundable(test)) {
        RoundedPointsEven(test, before);
      }
    }
  }

  // ---------------------------------------------------------------------------
  // One glyph through the normaliser

  /** A glyph with one contour holding one point, as a value. */
  function SampleGlyph(glyph: map<string, string>, contour: map<string, string>, point: map<string, string>): Element
  {
    Element("glyph", glyph, [ElementNode(Element("contour", contour, [ElementNode(Element("point", point, []))]))])
  }

  /** Builds the objects of a glyph with one contour holding one point. */
  method BuildSampleGlyph(pointAttributes: map<string, string>)
    returns (point: XmlElement, contour: XmlElement, glyph: XmlElement)
    ensures fresh(glyph.Repr)
    ensures point.Valid() && contour.Valid() && glyph.Valid()
    ensures point.name == "point" && point.children == []
    ensures contour.name == "contour" && contour.children == [ElementNode(point)]
    ensures glyph.name == "glyph" && glyph.children == [ElementNode(contour)]
    ensures glyph.attributes == map["name" := "a"] && contour.attributes == map[]
    ensures point.attributes == pointAttributes
  {
    point := new XmlElement("point", pointAttributes, []);
    contour := new XmlElement("contour", map[], [ElementNode(point)]);
    glyph := new XmlElement("glyph", map["name" := "a"], [ElementNode(contour)]);
    ReprOfOnly(point);
    ReprOfOnly(contour);
  }

  /** A glyph whose contour has a point at (3, -4): the pass rounds the point
      in place to (4, -4), and the code's check then reports every point even. */
  method NormaliseSampleGlyph() returns (x: string, y: string, allEven: bool)
    ensures x == "4" && y == "-4" && allEven
  {
    var attributes := map["x" := "3", "y" := "-4", "type" := "line"];
    var point, contour, glyph := BuildSampleGlyph(attributes);
    SampleModel(point, contour, glyph);
    SamplePointFits(attributes);
    SampleFits(AsWritten, map["name" := "a"], map[], attributes);
    allEven := glyph.NormaliseOutline(AsWritten);
    SampleModel(point, contour, glyph);
    RoundedSample(map["name" := "a"], map[], attributes);
    assert point.attributes == RoundedAttributes("point", attributes);
    SampleRounded();
    x := point.attributes["x"];
    y := point.attributes["y"];
  }

  lemma ReprOfOnly(c: XmlElement)
    ensures ReprOf([ElementNode(c)]) == c.Repr
  {
    assert [ElementNode(c)][1..] == [];
  }

  /** The value of the sample's objects. */
  lemma SampleModel(point: XmlElement, contour: XmlElement, glyph: XmlElement)
    requires point.Valid() && contour.Valid() && glyph.Valid()
    requires point.name == "point" && point.children == []
    requires contour.name == "contour" && contour.children == [ElementNode(point)]
    requires glyph.name == "glyph" && glyph.children == [ElementNode(contour)]
    ensures glyph.Model() == SampleGlyph(glyph.attributes, contour.attributes, point.attributes)
  {
    point.ChildModelsAt(0);
    contour.ChildModelsAt(1);
    glyph.ChildModelsAt(1);
    assert point.Model() == Element("point", point.attributes, []);
    assert contour.Model() == Element("contour", contour.attributes, [ElementNode(point.Model())]);
    assert glyph.Model() == Element("glyph", glyph.attributes, [ElementNode(contour.Model())]);
  }

  /** Rounding the sample rounds its point and nothing else. */
  lemma RoundedSample(glyph: map<string, string>, contour: map<string, string>, point: map<string, string>)
    ensures RoundedElement(SampleGlyph(glyph, contour, point))
         == SampleGlyph(glyph, contour, RoundedAttributes("point", point))
  {
    var p := Element("point", point, []);
    var c := Element("contour", contour, [ElementNode(p)]);
    assert RoundedElement(p) == Element("point", RoundedAttributes("point", point), []);
    assert RoundedElement(c).children == [RoundedNode(ElementNode(p))];
  }

  /** The coordinates of the sample are written back as "4" and "-4". */
  lemma SampleRounded()
    ensures RoundToEven("3") == "4" && RoundToEven("-4") == "-4"
  {
    RoundedInteger(3, "3", "4");
    RoundedInteger(-4, "-4", "-4");
  }

  lemma RoundedInteger(n: int, text: string, rounded: string)
    requires text == IntToString(n)
    requires rounded == IntToString(if n % 2 == 0 then n else if n > 0 then n + 1 else n - 1)
    ensures RoundToEven(text) == rounded
  {
    RoundToEvenOfInteger(n);
  }

  lemma IntegerFits(n: int, text: string)
    requires text == IntToString(n) && -I64Max < n < I64Max
    ensures FitsI64(text)
  {
    ParseIntToString(n);
  }

  /** The sample's point fits the as-written check. */
  lemma SamplePointFits(point: map<string, string>)
    requires point == map["x" := "3", "y" := "-4", "type" := "line"]
    ensures CoordinatesRoundable(AsWritten, "point", point)
  {
    IntegerFits(3, "3");
    IntegerFits(-4, "-4");
  }

  /** A sample glyph fits a check when its point does. */
  lemma SampleFits(test: EvenTest, glyph: map<string, string>, contour: map<string, string>, point: map<string, string>)
    requires CoordinatesRoundable(test, "point", point)
    ensures Everywhere(SampleGlyph(glyph, contour, point), PointRoundable(test))
  {
    var p := Element("point", point, []);
    var c := Element("contour", contour, [ElementNode(p)]);
    var f := PointRoundable(test);
    EverywhereCompose(p, f);
    EverywhereOnlyChild(c, f);
    EverywhereOnlyChild(SampleGlyph(glyph, contour, point), f);
  }

  lemma EverywhereOnlyChild(e: Element, p: Element -> bool)
    requires p(e) && |e.children| == 1 && e.children[0].ElementNode?
    requires Everywhere(e.children[0].element, p)
    ensures Everywhere(e, p)
  {
    EverywhereCompose(e, p);
  }
}
