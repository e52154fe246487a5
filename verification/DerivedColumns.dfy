/**
 The columns of a select: base columns, then columns derived from them by single-valued properties, then by
 multiple-valued ones, then hidden ones. Derived properties are expanded into columns in place.
 */
module DerivedColumns {

  datatype Variable = Variable(properties: seq<Property>, ascending: bool, descending: bool)

  /** A derived property: `multiple` values or a single one, only for updates, or leading to a definite target. */
  datatype Property = Property(key: string, multiple: bool, update: bool, definite: bool, target: Variable)

  datatype Kind = Base | Real | Virtual | Hidden

  const NULL_INDEX := -1

  /** What a column is, without what is known about its place. */
  datatype Shape = Shape(parent: int, property: Property, kind: Kind)

  datatype Column = Column(shape: Shape, index: int, deriveds: map<string, int>, derivedCount: int)

  function Shapes(columns: seq<Column>): (shapes: seq<Shape>)
    ensures |shapes| == |columns| && forall j :: 0 <= j < |shapes| ==> shapes[j] == columns[j].shape
  {
    seq(|columns|, j requires 0 <= j < |columns| => columns[j].shape)
  }

  // ----- which columns the properties make -----

  predicate Expands(p: Property) {
    !p.update && !p.definite
  }

  /** The columns made of the properties of column `k`, of one kind. */
  function Kids(k: nat, properties: seq<Property>, multiple: bool): seq<Shape> {
    if properties == [] then []
    else
      var rest, p := properties[..|properties| - 1], properties[|properties| - 1];
      Kids(k, rest, multiple)
      + if Expands(p) && p.multiple == multiple then [Shape(k, p, if multiple then Virtual else Real)] else []
  }

  /** The columns made of the columns from `from` to `to`. */
  function AllKids(shapes: seq<Shape>, from: nat, to: nat, multiple: bool): seq<Shape>
    requires to <= |shapes|
  {
    if to <= from then []
    else AllKids(shapes, from, to - 1, multiple) + Kids(to - 1, shapes[to - 1].property.target.properties, multiple)
  }

  function Size(v: Variable): nat {
    1 + SizeOf(v.properties)
  }

  function SizeOf(properties: seq<Property>): nat {
    if properties == [] then 0
    else SizeOf(properties[..|properties| - 1]) + Size(properties[|properties| - 1].target)
  }

  /** How much there is to expand in columns. */
  function Work(shapes: seq<Shape>): nat {
    if shapes == [] then 0 else Size(shapes[0].property.target) + Work(shapes[1..])
  }

  lemma {:induction false} WorkOfBoth(a: seq<Shape>, b: seq<Shape>)
    ensures Work(a + b) == Work(a) + Work(b)
  {
    if a == [] {
      assert a + b == b;
    } else {
      assert (a + b)[1..] == a[1..] + b;
      WorkOfBoth(a[1..], b);
    }
  }

  /** Expanding a column leaves less to expand. */
  lemma {:induction false} KidsAreLess(k: nat, properties: seq<Property>)
    ensures Work(Kids(k, properties, false)) <= SizeOf(properties)
  {
    if properties != [] {
      var rest, p := properties[..|properties| - 1], properties[|properties| - 1];
      KidsAreLess(k, rest);
      var last := if Expands(p) && !p.multiple then [Shape(k, p, Real)] else [];
      WorkOfBoth(Kids(k, rest, false), last);
      assert last != [] ==> last[1..] == [];
    }
  }

  lemma {:induction false} AllKidsOfPrefix(shapes: seq<Shape>, more: seq<Shape>, from: nat, to: nat, multiple: bool)
    requires to <= |shapes|
    ensures AllKids(shapes + more, from, to, multiple) == AllKids(shapes, from, to, multiple)
  {
    if from < to {
      AllKidsOfPrefix(shapes, more, from, to - 1, multiple);
    }
  }

  lemma {:induction false} KidsAre(k: nat, properties: seq<Property>, multiple: bool)
    ensures forall s <- Kids(k, properties, multiple) ::
              s.parent == k && s.kind == (if multiple then Virtual else Real) && s.property in properties
              && Expands(s.property) && s.property.multiple == multiple
    ensures forall p <- properties :: Expands(p) && p.multiple == multiple ==>
              Shape(k, p, if multiple then Virtual else Real) in Kids(k, properties, multiple)
  {
    if properties != [] {
      KidsAre(k, properties[..|properties| - 1], multiple);
    }
  }

  /** Every column that is made has one of the expanded columns as its parent, and a property of it. */
  lemma {:induction false} AllKidsAre(shapes: seq<Shape>, from: nat, to: nat, multiple: bool)
    requires to <= |shapes|
    ensures forall s <- AllKids(shapes, from, to, multiple) ::
              from <= s.parent < to && s.kind == (if multiple then Virtual else Real)
              && s.property in shapes[s.parent].property.target.properties
              && Expands(s.property) && s.property.multiple == multiple
  {
    hide Kids, Expands;
    if from < to {
      AllKidsAre(shapes, from, to - 1, multiple);
      KidsAre(to - 1, shapes[to - 1].property.target.properties, multiple);
    }
  }

  /** Every property of an expanded column that expands has a column. */
  lemma {:induction false} AllKidsThere(shapes: seq<Shape>, from: nat, to: nat, multiple: bool, k: nat, p: Property)
    requires to <= |shapes| && from <= k < to
    requires p in shapes[k].property.target.properties && Expands(p) && p.multiple == multiple
    ensures Shape(k, p, if multiple then Virtual else Real) in AllKids(shapes, from, to, multiple)
  {
    hide Kids, Expands;
    if k == to - 1 {
      KidsAre(k, shapes[k].property.target.properties, multiple);
    } else {
      AllKidsThere(shapes, from, to - 1, multiple, k, p);
    }
  }

  // ----- what the passes leave behind -----

  /** The entries without column that update properties leave. */
  function Marked(deriveds: map<string, int>, properties: seq<Property>): map<string, int> {
    if properties == [] then deriveds
    else
      var rest, p := Marked(deriveds, properties[..|properties| - 1]), properties[|properties| - 1];
      if p.update then rest[p.key := NULL_INDEX] else rest
  }

  /** The last column from `from` to `to` with a parent and a key, or none. */
  function LastChild(shapes: seq<Shape>, from: nat, to: nat, parent: int, key: string): int
    requires to <= |shapes|
  {
    if to <= from then NULL_INDEX
    else if shapes[to - 1].parent == parent && shapes[to - 1].property.key == key then to - 1
    else LastChild(shapes, from, to - 1, parent, key)
  }

  function ChildCount(shapes: seq<Shape>, from: nat, to: nat, parent: int): nat
    requires to <= |shapes|
  {
    if to <= from then 0
    else ChildCount(shapes, from, to - 1, parent) + if shapes[to - 1].parent == parent then 1 else 0
  }

  /** The orderings asked for by the variables of the columns. */
  function Orderings(shapes: seq<Shape>, from: nat, to: nat): seq<(int, bool)>
    requires to <= |shapes|
  {
    if to <= from then []
    else
      var v := shapes[to - 1].property.target;
      Orderings(shapes, from, to - 1) + if v.ascending || v.descending then [(to - 1, !v.descending)] else []
  }

  predicate SameEntry(a: Shape, b: Shape) {
    a.parent == b.parent && a.property.key == b.property.key
  }

  /** The lookup of its key in its parent leads to the column. */
  predicate LeadsTo(columns: seq<Column>, j: nat)
    requires j < |columns|
  {
    var s := columns[j].shape;
    && 0 <= s.parent < |columns| && s.property.key in columns[s.parent].deriveds
    && columns[s.parent].deriveds[s.property.key] == j
  }

  /** If no sibling has the same key, the lookup of its key in the parent leads back to a column. */
  lemma {:induction false} LeadsBack(shapes: seq<Shape>, from: nat, to: nat, j: nat)
    requires from <= j < to <= |shapes|
    requires forall i :: from <= i < to && i != j ==>
               !SameEntry(shapes[i], shapes[j])
    ensures LastChild(shapes, from, to, shapes[j].parent, shapes[j].property.key) == j
  {
    if to - 1 != j {
      LeadsBack(shapes, from, to - 1, j);
    }
  }

  predicate LaidOut(shapes: seq<Shape>, bases: nat, reals: nat, visibles: nat) {
    && bases <= reals <= visibles <= |shapes|
    && (forall j :: 0 <= j < bases ==> shapes[j].kind == Base)
    && (forall j :: bases <= j < reals ==> shapes[j].kind == Real)
    && (forall j :: reals <= j < visibles ==> shapes[j].kind == Virtual)
    && (forall j :: visibles <= j < |shapes| ==> shapes[j].kind == Hidden)
    && (forall j :: bases <= j < visibles ==> 0 <= shapes[j].parent < j && shapes[j].parent < reals)
  }

  lemma LaidOutMore(shapes: seq<Shape>, s: Shape, bases: nat, reals: nat, visibles: nat)
    requires LaidOut(shapes, bases, reals, visibles)
    ensures s.kind == Base ==> (LaidOut(shapes + [s], bases + 1, reals + 1, visibles + 1) <==> |shapes| == bases)
    ensures s.kind == Real ==>
              (LaidOut(shapes + [s], bases, reals + 1, visibles + 1) <==> |shapes| == reals && 0 <= s.parent < reals)
    ensures s.kind == Virtual ==>
              (LaidOut(shapes + [s], bases, reals, visibles + 1) <==> |shapes| == visibles && 0 <= s.parent < reals)
    ensures s.kind == Hidden ==> LaidOut(shapes + [s], bases, reals, visibles)
  {
    var more := shapes + [s];
    assert more[|shapes|] == s;
    assert forall j :: 0 <= j < |shapes| ==> more[j] == shapes[j];
    if bases < |shapes| {
      assert shapes[bases].kind != Base;
    }
    if reals < |shapes| {
      assert shapes[reals].kind == Virtual || shapes[reals].kind == Hidden;
    }
    if visibles < |shapes| {
      assert shapes[visibles].kind == Hidden;
    }
  }

  function Inserted(columns: seq<Column>, place: nat, c: Column): (longer: seq<Column>)
    requires place <= |columns|
    ensures |longer| == |columns| + 1
  {
    columns[..place] + [c] + columns[place..]
  }

  lemma ShapesInserted(columns: seq<Column>, front: seq<Shape>, back: seq<Shape>, c: Column)
    requires Shapes(columns) == front + back
    ensures Shapes(Inserted(columns, |front|, c)) == front + [c.shape] + back
  {
  }

  lemma NoKids(k: nat)
    ensures Kids(k, [], true) == []
  {
  }

  lemma KidsUnfold(k: nat, properties: seq<Property>, p: Property, multiple: bool)
    ensures Kids(k, properties + [p], multiple) ==
            Kids(k, properties, multiple)
            + if Expands(p) && p.multiple == multiple then [Shape(k, p, if multiple then Virtual else Real)] else []
  {
    assert (properties + [p])[..|properties|] == properties;
  }

  lemma MarkedOne(deriveds: map<string, int>, properties: seq<Property>, p: Property)
    requires p.update
    ensures Marked(deriveds, properties + [p]) == Marked(deriveds, properties)[p.key := NULL_INDEX]
  {
    assert (properties + [p])[..|properties|] == properties;
  }

  lemma NotMarked(deriveds: map<string, int>, properties: seq<Property>, p: Property)
    requires !p.update
    ensures Marked(deriveds, properties + [p]) == Marked(deriveds, properties)
  {
    assert (properties + [p])[..|properties|] == properties;
  }

  /** The first `c` properties of column `i` have been expanded: the real columns were `rs` before, the virtual ones
      `vs` and the hidden ones `hs`. */
  ghost predicate PartWay(was: seq<Column>, columns: seq<Column>, reals: nat, rs: seq<Shape>, vs: seq<Shape>,
                          hs: seq<Shape>, i: nat, properties: seq<Property>)
  {
    && Shapes(was) == rs + vs + hs && i < |rs|
    && Shapes(columns) == (rs + Kids(i, properties, false)) + (vs + Kids(i, properties, true)) + hs
    && reals == |rs| + |Kids(i, properties, false)|
    && KnownOf(was, columns, |rs|, reals, |hs|, i, properties)
  }

  /** What is known about the columns that were there and the new real ones. */
  ghost predicate KnownOf(was: seq<Column>, columns: seq<Column>, r0: nat, reals: nat, hidden: nat,
                          i: nat, properties: seq<Property>)
  {
    && i < r0 <= |was| && r0 <= reals && reals + hidden <= |columns| && hidden <= |was|
    && columns[i].deriveds == Marked(was[i].deriveds, properties)
    && (forall k :: 0 <= k < r0 && k != i ==> columns[k].deriveds == was[k].deriveds)
    && (forall k :: r0 <= k < reals ==> columns[k].deriveds == map[])
    && (forall k :: 0 <= k < r0 ==> columns[k].derivedCount == was[k].derivedCount)
    && (forall k :: r0 <= k < reals ==> columns[k].derivedCount == 0)
    && (forall k :: 0 <= k < r0 ==> columns[k].index == was[k].index)
    && NumbersBehind(columns, hidden) == NumbersBehind(was, hidden)
  }

  lemma KnownOfInserted(was: seq<Column>, columns: seq<Column>, r0: nat, reals: nat, hidden: nat,
                        i: nat, properties: seq<Property>, p: Property, place: nat, s: Shape)
    requires KnownOf(was, columns, r0, reals, hidden, i, properties) && !p.update
    requires reals <= place <= |columns| - hidden
    ensures var longer := Inserted(columns, place, Column(s, NULL_INDEX, map[], 0));
            KnownOf(was, longer, r0, if place == reals && s.kind == Real then reals + 1 else reals, hidden, i,
                    properties + [p])
  {
    hide Marked, NumbersBehind;
    NotMarked(was[i].deriveds, properties, p);
    InsertedInFront(columns, place, Column(s, NULL_INDEX, map[], 0), hidden);
  }

  /** The numbers of the last columns. */
  function NumbersBehind(columns: seq<Column>, count: nat): (numbers: seq<int>)
    requires count <= |columns|
    ensures |numbers| == count
  {
    seq(count, k requires 0 <= k < count => columns[|columns| - count + k].index)
  }

  lemma InsertedInFront(columns: seq<Column>, place: nat, c: Column, count: nat)
    requires count <= |columns| && place <= |columns| - count
    ensures NumbersBehind(Inserted(columns, place, c), count) == NumbersBehind(columns, count)
  {
  }

  lemma PartWayStart(was: seq<Column>, rs: seq<Shape>, vs: seq<Shape>, hs: seq<Shape>, i: nat)
    requires Shapes(was) == rs + vs + hs && i < |rs|
    ensures PartWay(was, was, |rs|, rs, vs, hs, i, [])
  {
    assert rs + [] == rs && vs + [] == vs;
  }

  lemma PartWayMark(was: seq<Column>, columns: seq<Column>, reals: nat, rs: seq<Shape>, vs: seq<Shape>,
                    hs: seq<Shape>, i: nat, properties: seq<Property>, p: Property)
    requires PartWay(was, columns, reals, rs, vs, hs, i, properties) && p.update
    ensures i < |columns|
    ensures PartWay(was, columns[i := columns[i].(deriveds := columns[i].deriveds[p.key := NULL_INDEX])], reals,
                    rs, vs, hs, i, properties + [p])
  {
    hide Kids, KnownOf, Shapes;
    KidsUnfold(i, properties, p, false);
    KidsUnfold(i, properties, p, true);
    KnownOfMarked(was, columns, |rs|, reals, |hs|, i, properties, p);
    var then_ := columns[i := columns[i].(deriveds := columns[i].deriveds[p.key := NULL_INDEX])];
    assert Shapes(then_) == Shapes(columns);
  }

  lemma KnownOfMarked(was: seq<Column>, columns: seq<Column>, r0: nat, reals: nat, hidden: nat,
                      i: nat, properties: seq<Property>, p: Property)
    requires KnownOf(was, columns, r0, reals, hidden, i, properties) && p.update
    ensures KnownOf(was, columns[i := columns[i].(deriveds := columns[i].deriveds[p.key := NULL_INDEX])],
                    r0, reals, hidden, i, properties + [p])
  {
    hide Marked;
    MarkedOne(was[i].deriveds, properties, p);
  }

  lemma PartWaySkip(was: seq<Column>, columns: seq<Column>, reals: nat, rs: seq<Shape>, vs: seq<Shape>,
                    hs: seq<Shape>, i: nat, properties: seq<Property>, p: Property)
    requires PartWay(was, columns, reals, rs, vs, hs, i, properties) && !p.update && p.definite
    ensures PartWay(was, columns, reals, rs, vs, hs, i, properties + [p])
  {
    assert (properties + [p])[..|properties|] == properties;
  }

  lemma PartWayReal(was: seq<Column>, columns: seq<Column>, reals: nat, rs: seq<Shape>, vs: seq<Shape>, hs: seq<Shape>,
                    i: nat, properties: seq<Property>, p: Property)
    requires PartWay(was, columns, reals, rs, vs, hs, i, properties) && Expands(p) && !p.multiple
    ensures reals <= |columns|
    ensures PartWay(was, Inserted(columns, reals, Column(Shape(i, p, Real), NULL_INDEX, map[], 0)), reals + 1,
                    rs, vs, hs, i, properties + [p])
  {
    hide Kids, KnownOf, Shapes;
    KidsUnfold(i, properties, p, false);
    KidsUnfold(i, properties, p, true);
    KnownOfInserted(was, columns, |rs|, reals, |hs|, i, properties, p, reals, Shape(i, p, Real));
    var dep := Column(Shape(i, p, Real), NULL_INDEX, map[], 0);
    var r, v := rs + Kids(i, properties, false), vs + Kids(i, properties, true);
    assert r + v + hs == r + (v + hs);
    ShapesInserted(columns, r, v + hs, dep);
    assert r + [dep.shape] + (v + hs) == (rs + (Kids(i, properties, false) + [dep.shape])) + v + hs;
  }

  lemma PartWayVirtual(was: seq<Column>, columns: seq<Column>, reals: nat, rs: seq<Shape>, vs: seq<Shape>,
                       hs: seq<Shape>, i: nat, properties: seq<Property>, p: Property)
    requires PartWay(was, columns, reals, rs, vs, hs, i, properties) && Expands(p) && p.multiple
    ensures var visibles := reals + |vs| + |Kids(i, properties, true)|;
            visibles <= |columns| &&
            PartWay(was, Inserted(columns, visibles, Column(Shape(i, p, Virtual), NULL_INDEX, map[], 0)), reals,
                    rs, vs, hs, i, properties + [p])
  {
    hide Kids, KnownOf, Shapes;
    KidsUnfold(i, properties, p, false);
    KidsUnfold(i, properties, p, true);
    var dep := Column(Shape(i, p, Virtual), NULL_INDEX, map[], 0);
    var r, v := rs + Kids(i, properties, false), vs + Kids(i, properties, true);
    ShapesInserted(columns, r + v, hs, dep);
    KnownOfInserted(was, columns, |rs|, reals, |hs|, i, properties, p, |r + v|, Shape(i, p, Virtual));
    assert r + v + [dep.shape] + hs == r + (vs + (Kids(i, properties, true) + [dep.shape])) + hs;
  }

  /** What a real column looked up before it was expanded: a new one nothing. */
  function Initially(was: seq<Column>, reals: nat, k: nat): map<string, int>
    requires reals <= |was|
  {
    if k < reals then was[k].deriveds else map[]
  }

  /** The columns from `from` to `i` have been expanded; there were `r0` real and `v0` visible columns before. */
  ghost predicate Expanding(was: seq<Column>, columns: seq<Column>, r0: nat, v0: nat, rs: seq<Shape>, vs: seq<Shape>,
                            from: nat, i: nat)
  {
    && r0 <= v0 <= |was| && i <= |rs|
    && Shapes(columns) == rs + vs + Shapes(was)[v0..]
    && rs == Shapes(was)[..r0] + AllKids(rs, from, i, false)
    && vs == Shapes(was)[r0..v0] + AllKids(rs, from, i, true)
    && (forall k :: 0 <= k < |rs| ==>
          columns[k].deriveds == if from <= k < i then Marked(Initially(was, r0, k), rs[k].property.target.properties)
                                 else Initially(was, r0, k))
    && (forall k :: 0 <= k < |rs| ==> columns[k].derivedCount == if k < r0 then was[k].derivedCount else 0)
    && (forall k :: 0 <= k < r0 ==> columns[k].index == was[k].index)
    && |was| - v0 <= |columns| && NumbersBehind(columns, |was| - v0) == NumbersBehind(was, |was| - v0)
    && (forall q :: r0 <= q < |rs| ==> 0 <= rs[q].parent < q && rs[q].kind == Real)
    && (forall q :: v0 - r0 <= q < |vs| ==> 0 <= vs[q].parent < i && vs[q].kind == Virtual)
  }

  lemma ExpandingStart(was: seq<Column>, r0: nat, v0: nat, from: nat)
    requires from <= r0 <= v0 <= |was|
    ensures Expanding(was, was, r0, v0, Shapes(was)[..r0], Shapes(was)[r0..v0], from, from)
  {
    var s := Shapes(was);
    assert s == s[..r0] + s[r0..v0] + s[v0..];
  }

  lemma AllKidsUnfold(shapes: seq<Shape>, more: seq<Shape>, from: nat, i: nat, multiple: bool)
    requires from <= i < |shapes|
    ensures AllKids(shapes + more, from, i + 1, multiple)
            == AllKids(shapes, from, i, multiple) + Kids(i, shapes[i].property.target.properties, multiple)
  {
    hide Kids;
    AllKidsOfPrefix(shapes, more, from, i, multiple);
  }

  lemma Regroup<T>(a: seq<T>, b: seq<T>, c: seq<T>)
    ensures a + b + c == a + (b + c)
  {
  }

  lemma ExpandingNext(was: seq<Column>, columns: seq<Column>, then_: seq<Column>, r0: nat, v0: nat,
                      rs: seq<Shape>, vs: seq<Shape>, from: nat, i: nat, reals: nat)
    requires from <= i < |rs| && Expanding(was, columns, r0, v0, rs, vs, from, i)
    requires PartWay(columns, then_, reals, rs, vs, Shapes(was)[v0..], i, rs[i].property.target.properties)
    ensures var properties := rs[i].property.target.properties;
            Expanding(was, then_, r0, v0, rs + Kids(i, properties, false), vs + Kids(i, properties, true), from, i + 1)
  {
    hide AllKids, Kids, Marked, NumbersBehind, Shapes;
    var properties := rs[i].property.target.properties;
    var rs', vs' := rs + Kids(i, properties, false), vs + Kids(i, properties, true);
    AllKidsUnfold(rs, Kids(i, properties, false), from, i, false);
    AllKidsUnfold(rs, Kids(i, properties, false), from, i, true);
    KidsAre(i, properties, false);
    KidsAre(i, properties, true);
    Regroup(Shapes(was)[..r0], AllKids(rs, from, i, false), Kids(i, properties, false));
    Regroup(Shapes(was)[r0..v0], AllKids(rs, from, i, true), Kids(i, properties, true));
  }

  lemma WorkLeft(rs: seq<Shape>, i: nat, kids: seq<Shape>)
    requires i < |rs| && kids == Kids(i, rs[i].property.target.properties, false)
    ensures Work((rs + kids)[i + 1..]) < Work(rs[i..])
  {
    assert (rs + kids)[i + 1..] == rs[i + 1..] + kids;
    assert rs[i..][1..] == rs[i + 1..];
    WorkOfBoth(rs[i + 1..], kids);
    KidsAreLess(i, rs[i].property.target.properties);
  }

  lemma ExpandingShapes(was: seq<Column>, columns: seq<Column>, r0: nat, v0: nat, rs: seq<Shape>,
                        vs: seq<Shape>, from: nat, i: nat)
    requires Expanding(was, columns, r0, v0, rs, vs, from, i)
    ensures r0 <= v0 <= |was| && Shapes(columns) == rs + vs + Shapes(was)[v0..]
    ensures |columns| >= |rs| && forall k :: 0 <= k < |rs| ==> columns[k].shape == rs[k]
  {
  }

  lemma PartWayReals(was: seq<Column>, columns: seq<Column>, reals: nat, rs: seq<Shape>, vs: seq<Shape>,
                     hs: seq<Shape>, i: nat, properties: seq<Property>)
    requires PartWay(was, columns, reals, rs, vs, hs, i, properties)
    ensures reals == |rs| + |Kids(i, properties, false)|
  {
  }

  lemma NoOrderings(shapes: seq<Shape>, from: nat)
    requires from <= |shapes|
    ensures Orderings(shapes, from, from) == []
  {
  }

  lemma OrderingsUnfold(shapes: seq<Shape>, more: seq<Shape>, from: nat, i: nat)
    requires from <= i < |shapes|
    ensures var v := shapes[i].property.target;
            Orderings(shapes + more, from, i + 1)
            == Orderings(shapes, from, i) + if v.ascending || v.descending then [(i, !v.descending)] else []
  {
    OrderingsOfPrefix(shapes, more, from, i);
  }

  lemma {:induction false} OrderingsOfPrefix(shapes: seq<Shape>, more: seq<Shape>, from: nat, to: nat)
    requires to <= |shapes|
    ensures Orderings(shapes + more, from, to) == Orderings(shapes, from, to)
  {
    if from < to {
      OrderingsOfPrefix(shapes, more, from, to - 1);
    }
  }

  lemma LessWork(rs: seq<Shape>, i: nat)
    requires i < |rs|
    ensures Work(rs[i + 1..]) < Work(rs[i..])
  {
    assert rs[i..][1..] == rs[i + 1..];
  }

  // ----- numbering -----

  /** What the lookup of a key in column `m` finds once the columns from `from` to `to` are numbered. */
  ghost predicate Looks(was: seq<Column>, columns: seq<Column>, from: nat, to: nat, m: nat, key: string)
    requires to <= |was| && m < |was| && m < |columns|
  {
    var c := LastChild(Shapes(was), from, to, m, key);
    if c != NULL_INDEX then key in columns[m].deriveds && columns[m].deriveds[key] == c
    else
      && (key in columns[m].deriveds <==> key in was[m].deriveds)
      && (key in was[m].deriveds ==> columns[m].deriveds[key] == was[m].deriveds[key])
  }

  ghost predicate Numbered(was: seq<Column>, columns: seq<Column>, from: nat, to: nat, reals: nat) {
    && to <= |was| && reals <= |was| && |columns| == |was|
    && (forall m :: 0 <= m < |was| ==> columns[m].shape == was[m].shape)
    && (forall m :: 0 <= m < |was| ==> columns[m].index == if from <= m < to then m else was[m].index)
    && (forall m, key :: 0 <= m < |was| ==> Looks(was, columns, from, to, m, key))
    && (forall m :: 0 <= m < |was| ==>
          columns[m].derivedCount
          == was[m].derivedCount + ChildCount(Shapes(was), from, if to <= reals then to else reals, m))
  }

  function NumberOne(columns: seq<Column>, j: nat, reals: nat): seq<Column>
    requires j < |columns| && 0 <= columns[j].shape.parent < j
  {
    var numbered := columns[j := columns[j].(index := j)];
    var p := numbered[columns[j].shape.parent];
    numbered[columns[j].shape.parent :=
      p.(deriveds := p.deriveds[columns[j].shape.property.key := j],
         derivedCount := p.derivedCount + if j < reals then 1 else 0)]
  }

  lemma NumberedStart(was: seq<Column>, from: nat, reals: nat)
    requires from <= reals <= |was|
    ensures Numbered(was, was, from, from, reals)
  {
    assert forall m :: ChildCount(Shapes(was), from, from, m) == 0;
  }

  lemma NumberedNext(was: seq<Column>, columns: seq<Column>, from: nat, to: nat, reals: nat)
    requires Numbered(was, columns, from, to, reals) && from <= to < |was| && from <= reals
    requires 0 <= was[to].shape.parent < to
    ensures |columns| == |was| && columns[to].shape == was[to].shape
    ensures Numbered(was, NumberOne(columns, to, reals), from, to + 1, reals)
  {
    var then_, next := NumberOne(columns, to, reals), to + 1;
    forall m, key | 0 <= m < |was| ensures Looks(was, then_, from, next, m, key) {
      assert Looks(was, columns, from, to, m, key);
    }
  }

  // ----- the whole -----

  /** The real columns are those there were and all that the real ones from `from` on make, in their order; likewise
      the virtual ones; the hidden ones stay behind. */
  ghost predicate Expanded(was: seq<Shape>, shapes: seq<Shape>, r0: nat, v0: nat, reals: nat, visibles: nat,
                           from: nat, expand: bool)
  {
    && r0 <= v0 <= |was| && reals <= visibles <= |shapes|
    && shapes[..reals] == was[..r0] + (if expand then AllKids(shapes, from, reals, false) else [])
    && shapes[reals..visibles] == was[r0..v0] + (if expand then AllKids(shapes, from, reals, true) else [])
    && shapes[visibles..] == was[v0..]
  }

  lemma ExpandingEnds(was: seq<Column>, columns: seq<Column>, r0: nat, v0: nat, rs: seq<Shape>,
                      vs: seq<Shape>, from: nat)
    requires Expanding(was, columns, r0, v0, rs, vs, from, |rs|)
    ensures Expanded(Shapes(was), Shapes(columns), r0, v0, |rs|, |rs| + |vs|, from, true)
    ensures |columns| - |rs| - |vs| == |was| - v0
  {
    hide AllKids, Shapes, Marked;
    var hs := Shapes(was)[v0..];
    assert rs + vs + hs == rs + (vs + hs);
    AllKidsOfPrefix(rs, vs + hs, from, |rs|, false);
    AllKidsOfPrefix(rs, vs + hs, from, |rs|, true);
  }

  lemma StillLaidOut(was: seq<Column>, columns: seq<Column>, r0: nat, v0: nat, rs: seq<Shape>,
                     vs: seq<Shape>, from: nat, bases: nat)
    requires Expanding(was, columns, r0, v0, rs, vs, from, |rs|) && LaidOut(Shapes(was), bases, r0, v0)
    ensures LaidOut(Shapes(columns), bases, |rs|, |rs| + |vs|)
  {
    hide AllKids, Shapes, Marked, Initially, LaidOut;
    LongerLaidOut(Shapes(was), bases, r0, v0, rs, vs);
  }

  /** New real and new virtual columns behind the old ones, with parents in front of them, keep the layout. */
  lemma LongerLaidOut(s: seq<Shape>, bases: nat, r0: nat, v0: nat, rs: seq<Shape>, vs: seq<Shape>)
    requires r0 <= v0 <= |s| && LaidOut(s, bases, r0, v0) && s[..r0] <= rs && s[r0..v0] <= vs
    requires forall q :: r0 <= q < |rs| ==> 0 <= rs[q].parent < q && rs[q].kind == Real
    requires forall q :: v0 - r0 <= q < |vs| ==> 0 <= vs[q].parent < |rs| && vs[q].kind == Virtual
    ensures LaidOut(rs + vs + s[v0..], bases, |rs|, |rs| + |vs|)
  {
    var shapes := rs + vs + s[v0..];
    forall j | 0 <= j < |rs|
      ensures shapes[j].kind == (if j < bases then Base else Real)
      ensures bases <= j ==> 0 <= shapes[j].parent < j
    {
      assert shapes[j] == rs[j];
      if j < r0 {
        assert rs[j] == s[..r0][j] == s[j];
      }
    }
    forall j | |rs| <= j < |rs| + |vs| ensures shapes[j].kind == Virtual && 0 <= shapes[j].parent < |rs| {
      var q := j - |rs|;
      assert shapes[j] == vs[q];
      if q < v0 - r0 {
        assert vs[q] == s[r0..v0][q] == s[r0 + q];
      }
    }
    forall j | |rs| + |vs| <= j < |shapes| ensures shapes[j].kind == Hidden {
      assert shapes[j] == s[v0..][j - |rs| - |vs|] == s[v0 + (j - |rs| - |vs|)];
    }
  }

  /** In the end every property of a real column that expands has a column behind its own, single-valued ones among the
      real columns and multiple-valued ones among the virtual ones. */
  lemma ColumnFor(was: seq<Shape>, shapes: seq<Shape>, bases: nat, r0: nat, v0: nat, reals: nat,
                  visibles: nat, from: nat, k: nat, p: Property) returns (j: nat)
    requires Expanded(was, shapes, r0, v0, reals, visibles, from, true) && LaidOut(shapes, bases, reals, visibles)
    requires bases <= r0 && from <= k < reals && p in shapes[k].property.target.properties && Expands(p)
    ensures k < j < visibles && shapes[j] == Shape(k, p, if p.multiple then Virtual else Real)
    ensures p.multiple <==> reals <= j
  {
    hide AllKids, Expands;
    AllKidsThere(shapes, from, reals, p.multiple, k, p);
    var kid := Shape(k, p, if p.multiple then Virtual else Real);
    var kids := AllKids(shapes, from, reals, p.multiple);
    var m :| 0 <= m < |kids| && kids[m] == kid;
    if p.multiple {
      assert shapes[reals..visibles][v0 - r0 + m] == kids[m];
      j := reals + (v0 - r0) + m;
    } else {
      assert shapes[..reals][r0 + m] == kids[m];
      j := r0 + m;
    }
  }

  /** What a real column looks up in the end: for each key the last column made for it, or else what it had before,
      or nothing for a property that is only for updates. */
  ghost predicate LooksUp(was: seq<Column>, columns: seq<Column>, r0: nat, start: nat, visibles: nat, from: nat,
                          expand: bool, k: nat, key: string)
    requires r0 <= |was| && k < |columns| && visibles <= |columns|
  {
    var c := LastChild(Shapes(columns), start, visibles, k, key);
    var old_ := if expand && from <= k then Marked(Initially(was, r0, k), columns[k].shape.property.target.properties)
                else Initially(was, r0, k);
    if c != NULL_INDEX then key in columns[k].deriveds && columns[k].deriveds[key] == c
    else (key in columns[k].deriveds <==> key in old_) && (key in old_ ==> columns[k].deriveds[key] == old_[key])
  }

  lemma {:induction false} NoChild(shapes: seq<Shape>, from: nat, to: nat, parent: int, key: string)
    requires to <= |shapes|
    requires forall i :: from <= i < to ==> !(shapes[i].parent == parent && shapes[i].property.key == key)
    ensures LastChild(shapes, from, to, parent, key) == NULL_INDEX
  {
    if from < to {
      NoChild(shapes, from, to - 1, parent, key);
    }
  }

  lemma {:induction false} NotMarkedAtAll(deriveds: map<string, int>, properties: seq<Property>, key: string)
    requires forall p <- properties :: p.update ==> p.key != key
    ensures key in Marked(deriveds, properties) <==> key in deriveds
    ensures key in deriveds ==> Marked(deriveds, properties)[key] == deriveds[key]
  {
    if properties != [] {
      NotMarkedAtAll(deriveds, properties[..|properties| - 1], key);
    }
  }

  /** In the end the lookup leads to every numbered column whose key no other one of its siblings has... */
  lemma VisibleFound(was: seq<Column>, columns: seq<Column>, r0: nat, start: nat, visibles: nat, from: nat,
                     expand: bool, j: nat)
    requires r0 <= |was| && start <= j < visibles <= |columns| && 0 <= columns[j].shape.parent < |columns|
    requires LooksUp(was, columns, r0, start, visibles, from, expand,
                     columns[j].shape.parent, columns[j].shape.property.key)
    requires forall i :: start <= i < visibles && i != j ==> !SameEntry(columns[i].shape, columns[j].shape)
    ensures LeadsTo(columns, j)
  {
    LeadsBack(Shapes(columns), start, visibles, j);
  }

  /** ... but to a hidden one, pushed back by the columns made, only if there are none. */
  lemma HiddenAstray(was: seq<Column>, columns: seq<Column>, r0: nat, start: nat, visibles: nat, from: nat,
                     expand: bool, j: nat, made: nat)
    requires r0 <= |was| && visibles <= |columns| == |was| + made && j < |was| && LeadsTo(was, j)
    requires was[j].shape.parent < r0 && columns[j + made].shape == was[j].shape
    requires LooksUp(was, columns, r0, start, visibles, from, expand,
                     was[j].shape.parent, was[j].shape.property.key)
    requires forall i :: start <= i < visibles ==> !SameEntry(columns[i].shape, was[j].shape)
    requires forall p <- columns[was[j].shape.parent].shape.property.target.properties ::
               p.update ==> p.key != was[j].shape.property.key
    ensures LeadsTo(columns, j + made) <==> made == 0
  {
    var k, key := was[j].shape.parent, was[j].shape.property.key;
    NoChild(Shapes(columns), start, visibles, k, key);
    NotMarkedAtAll(Initially(was, r0, k), columns[k].shape.property.target.properties, key);
  }

  lemma LooksUpInTheEnd(
    was: seq<Column>, mid: seq<Column>, columns: seq<Column>, r0: nat, start: nat, visibles: nat, from: nat,
    expand: bool, k: nat, key: string, reals: nat)
    requires Numbered(mid, columns, start, visibles, reals) && k < |mid| && r0 <= |was|
    requires mid[k].deriveds ==
             if expand && from <= k then Marked(Initially(was, r0, k), mid[k].shape.property.target.properties)
             else Initially(was, r0, k)
    ensures visibles <= |columns| && k < |columns|
    ensures LooksUp(was, columns, r0, start, visibles, from, expand, k, key)
  {
    hide Marked, LastChild, Initially;
    assert Shapes(columns) == Shapes(mid);
    assert Looks(mid, columns, start, visibles, k, key);
  }

  lemma NumberedFacts(mid: seq<Column>, columns: seq<Column>, start: nat, visibles: nat, reals: nat)
    requires Numbered(mid, columns, start, visibles, reals) && reals <= visibles
    ensures Shapes(columns) == Shapes(mid)
    ensures forall j :: start <= j < visibles ==> columns[j].index == j
    ensures forall k :: 0 <= k < |mid| ==>
              columns[k].derivedCount == mid[k].derivedCount + ChildCount(Shapes(columns), start, reals, k)
    ensures forall m :: 0 <= m < |mid| && !(start <= m < visibles) ==> columns[m].index == mid[m].index
    ensures visibles <= |mid| == |columns|
    ensures NumbersBehind(columns, |mid| - visibles) == NumbersBehind(mid, |mid| - visibles)
  {
    hide Looks;
    assert Shapes(columns) == Shapes(mid);
  }

  lemma ExpandingReals(was: seq<Column>, columns: seq<Column>, r0: nat, v0: nat, rs: seq<Shape>,
                       vs: seq<Shape>, from: nat)
    requires Expanding(was, columns, r0, v0, rs, vs, from, |rs|)
    ensures r0 <= |was| && r0 <= |rs| <= |columns|
    ensures rs == Shapes(columns)[..|rs|]
    ensures forall k :: 0 <= k < |rs| ==>
              columns[k].deriveds ==
                if from <= k then Marked(Initially(was, r0, k), columns[k].shape.property.target.properties)
                else Initially(was, r0, k)
    ensures forall k :: 0 <= k < |rs| ==> columns[k].derivedCount == if k < r0 then was[k].derivedCount else 0
    ensures forall k :: 0 <= k < r0 ==> columns[k].index == was[k].index
    ensures v0 <= |was| && |was| - v0 <= |columns|
    ensures NumbersBehind(columns, |was| - v0) == NumbersBehind(was, |was| - v0)
  {
    hide Marked, AllKids, Initially, NumbersBehind;
    assert forall k :: 0 <= k < |rs| ==> columns[k].shape == rs[k];
  }

  lemma OrderingsOfReals(shapes: seq<Shape>, from: nat, reals: nat)
    requires reals <= |shapes|
    ensures Orderings(shapes, from, reals) == Orderings(shapes[..reals], from, reals)
  {
    assert shapes == shapes[..reals] + shapes[reals..];
    OrderingsOfPrefix(shapes[..reals], shapes[reals..], from, reals);
  }

  lemma NotExpanded(shapes: seq<Shape>, reals: nat, visibles: nat, from: nat)
    requires reals <= visibles <= |shapes|
    ensures Expanded(shapes, shapes, reals, visibles, reals, visibles, from, false)
  {
  }

  /** The number of each visible column is its place. */
  ghost predicate InPlace(columns: seq<Column>, visibles: nat) {
    visibles <= |columns| && forall j :: 0 <= j < visibles ==> columns[j].index == j
  }

  predicate FitsBehind(kind: Kind, parent: int, count: nat, bases: nat, reals: nat, visibles: nat) {
    match kind
    case Base => count == bases
    case Real => count == reals && 0 <= parent < reals
    case Virtual => count == visibles && 0 <= parent < reals
    case Hidden => true
  }

  function More(kind: Kind, least: Kind, count: nat): nat {
    if kind == Hidden || (kind == Virtual && least != Virtual) || (kind == Real && least == Base) then count
    else count + 1
  }

  /** The layout with one more column at the end. */
  lemma LayoutMore(was: seq<Column>, columns: seq<Column>, s: Shape, bases: nat, reals: nat, visibles: nat)
    requires LaidOut(Shapes(was), bases, reals, visibles) && InPlace(was, visibles)
    requires Shapes(columns) == Shapes(was) + [s] && columns[|was|].index == |was|
    requires forall k :: 0 <= k < |was| ==> columns[k].index == was[k].index
    ensures var v := More(s.kind, Virtual, visibles);
            LaidOut(Shapes(columns), More(s.kind, Base, bases), More(s.kind, Real, reals), v) && InPlace(columns, v)
            <==> FitsBehind(s.kind, s.parent, |was|, bases, reals, visibles)
  {
    hide LaidOut, InPlace;
    LaidOutMore(Shapes(was), s, bases, reals, visibles);
    LayoutEnds(Shapes(was), bases, reals, visibles);
    OneMoreInPlace(was, columns, visibles, More(s.kind, Virtual, visibles));
  }

  lemma OneMoreInPlace(was: seq<Column>, columns: seq<Column>, visibles: nat, more: nat)
    requires InPlace(was, visibles) && |columns| == |was| + 1 && columns[|was|].index == |was|
    requires forall k :: 0 <= k < |was| ==> columns[k].index == was[k].index
    ensures more <= visibles || (more == visibles + 1 && visibles == |was|) ==> InPlace(columns, more)
  {
  }

  lemma LayoutEnds(shapes: seq<Shape>, bases: nat, reals: nat, visibles: nat)
    requires LaidOut(shapes, bases, reals, visibles)
    ensures bases <= reals <= visibles <= |shapes|
  {
  }

  class DerivedSelect {
    var columns: seq<Column>
    var baseColumns: nat
    var realColumns: nat
    var visibleColumns: nat
    var orderBy: seq<(int, bool)>

    ghost predicate Valid()
      reads this
    {
      LaidOut(Shapes(columns), baseColumns, realColumns, visibleColumns) && InPlace(columns, visibleColumns)
    }

    constructor ()
      ensures Valid() && columns == [] && orderBy == []
    {
      columns, baseColumns, realColumns, visibleColumns, orderBy := [], 0, 0, 0, [];
    }

    /** A new column at the end of the list goes there only if no column of a later kind is there already, and a
        derived one only with a base or single-valued column as its parent. */
    predicate Fits(kind: Kind, parent: int)
      reads this
    {
      FitsBehind(kind, parent, |columns|, baseColumns, realColumns, visibleColumns)
    }

    /** Appends a column and lets its parent look it up; the layout is kept exactly when it fits. */
    method AddColumn(property: Property, kind: Kind, parent: int)
      requires parent == NULL_INDEX || 0 <= parent < |columns|
      modifies this`columns, this`baseColumns, this`realColumns, this`visibleColumns
      ensures Shapes(columns) == Shapes(old(columns)) + [Shape(parent, property, kind)]
      ensures columns[|columns| - 1].index == |columns| - 1
      ensures kind != Base && parent != NULL_INDEX ==>
                && columns[parent].deriveds == old(columns)[parent].deriveds[property.key := |columns| - 1]
                && columns[parent].derivedCount == old(columns)[parent].derivedCount + if kind == Real then 1 else 0
      ensures forall k :: 0 <= k < |old(columns)| && (k != parent || kind == Base) ==> columns[k] == old(columns)[k]
      ensures old(Valid()) ==> (Valid() <==> old(Fits(kind, parent)))
    {
      hide LaidOut, InPlace;
      ghost var was, before := columns, Shapes(columns);
      var index := |columns|;
      match kind {
        case Base => baseColumns, realColumns, visibleColumns := baseColumns + 1, realColumns + 1, visibleColumns + 1;
        case Real => realColumns, visibleColumns := realColumns + 1, visibleColumns + 1;
        case Virtual => visibleColumns := visibleColumns + 1;
        case Hidden =>
      }
      if kind != Base && parent != NULL_INDEX {
        var p := columns[parent];
        columns := columns[parent := p.(deriveds := p.deriveds[property.key := index],
                                        derivedCount := p.derivedCount + if kind == Real then 1 else 0)];
      }
      assert Shapes(columns) == before;
      columns := columns + [Column(Shape(parent, property, kind), index, map[], 0)];
      assert Shapes(columns) == before + [Shape(parent, property, kind)];
      if old(Valid()) {
        LayoutMore(was, columns, Shape(parent, property, kind),
                   old(baseColumns), old(realColumns), old(visibleColumns));
      }
    }

    /** Puts a column behind the real ones or the virtual ones for each property of column `i`. */
    method ExpandProperties(i: nat, ghost rs: seq<Shape>, ghost vs: seq<Shape>, ghost hs: seq<Shape>)
      returns (made: nat)
      requires Shapes(columns) == rs + vs + hs && |rs| == realColumns && |rs| + |vs| == visibleColumns
               && i < realColumns
      modifies this`columns, this`realColumns, this`visibleColumns
      ensures var properties := rs[i].property.target.properties;
              && PartWay(old(columns), columns, realColumns, rs, vs, hs, i, properties)
              && visibleColumns == realColumns + |vs| + |Kids(i, properties, true)|
      ensures made == |columns| - |old(columns)|
    {
      hide PartWay, Kids, Marked, Shapes, Inserted;
      ghost var was := columns;
      var properties := columns[i].shape.property.target.properties;
      made := 0;
      var c := 0;
      PartWayStart(was, rs, vs, hs, i);
      NoKids(i);
      while c < |properties|
        invariant 0 <= c <= |properties|
        invariant PartWay(was, columns, realColumns, rs, vs, hs, i, properties[..c])
        invariant visibleColumns == realColumns + |vs| + |Kids(i, properties[..c], true)|
        invariant made == |columns| - |was|
      {
        var p := properties[c];
        assert properties[..c] + [p] == properties[..c + 1];
        KidsUnfold(i, properties[..c], p, true);
        if p.update {
          PartWayMark(was, columns, realColumns, rs, vs, hs, i, properties[..c], p);
          columns := columns[i := columns[i].(deriveds := columns[i].deriveds[p.key := NULL_INDEX])];
        } else if !p.definite {
          var dep := Column(Shape(i, p, if p.multiple then Virtual else Real), NULL_INDEX, map[], 0);
          if !p.multiple {
            PartWayReal(was, columns, realColumns, rs, vs, hs, i, properties[..c], p);
            columns := Inserted(columns, realColumns, dep);
            realColumns := realColumns + 1;
          } else {
            PartWayVirtual(was, columns, realColumns, rs, vs, hs, i, properties[..c], p);
            columns := Inserted(columns, visibleColumns, dep);
          }
          visibleColumns := visibleColumns + 1;
          made := made + 1;
        } else {
          PartWaySkip(was, columns, realColumns, rs, vs, hs, i, properties[..c], p);
        }
        c := c + 1;
      }
      assert properties[..c] == properties;
    }

    /** The first pass: every real column finds its derived properties expanded into columns behind it. */
    method ExpandColumns(from: nat, expand: bool) returns (ret: nat, ghost rs: seq<Shape>, ghost vs: seq<Shape>)
      requires from <= realColumns <= visibleColumns <= |columns|
      modifies this`columns, this`realColumns, this`visibleColumns, this`orderBy
      ensures |rs| == realColumns && |rs| + |vs| == visibleColumns
      ensures expand ==> Expanding(old(columns), columns, old(realColumns), old(visibleColumns), rs, vs, from,
              realColumns)
      ensures !expand ==> realColumns == old(realColumns) && visibleColumns == old(visibleColumns)
      ensures !expand ==> columns == old(columns) && rs == Shapes(columns)[..realColumns]
      ensures ret == |columns| - |old(columns)|
      ensures orderBy == old(orderBy) + Orderings(rs, from, realColumns)
    {
      hide Expanding, PartWay, Kids, Orderings;
      ghost var was, r0, v0 := columns, realColumns, visibleColumns;
      ret := 0;
      var i := from;
      rs, vs := Shapes(was)[..r0], Shapes(was)[r0..v0];
      ExpandingStart(was, r0, v0, from);
      NoOrderings(rs, from);
      hide Shapes;
      while i < realColumns
        invariant from <= i <= realColumns
        invariant |rs| == realColumns && |rs| + |vs| == visibleColumns
        invariant expand ==> Expanding(was, columns, r0, v0, rs, vs, from, i)
        invariant !expand ==> columns == was && realColumns == r0 && visibleColumns == v0 && rs == Shapes(was)[..r0]
        invariant ret == |columns| - |was|
        invariant orderBy == old(orderBy) + Orderings(rs, from, i)
        decreases Work(rs[i..])
      {
        ghost var hs, before := Shapes(was)[v0..], columns;
        if expand {
          ExpandingShapes(was, columns, r0, v0, rs, vs, from, i);
        }
        var v := columns[i].shape.property.target;
        ghost var kids, others: seq<Shape> := [], [];
        if expand {
          kids, others := Kids(i, v.properties, false), Kids(i, v.properties, true);
          var made := ExpandProperties(i, rs, vs, hs);
          ret := ret + made;
          ExpandingNext(was, before, columns, r0, v0, rs, vs, from, i, realColumns);
          PartWayReals(before, columns, realColumns, rs, vs, hs, i, v.properties);
          WorkLeft(rs, i, kids);
        } else {
          LessWork(rs, i);
          assert rs + [] == rs;
        }
        if v.ascending || v.descending {
          orderBy := orderBy + [(i, !v.descending)];
        }
        OrderingsUnfold(rs, kids, from, i);
        rs, vs := rs + kids, vs + others;
        i := i + 1;
      }
    }

    /** The pass that gives the columns their numbers and lets their parents look them up. */
    method FinalizeIndices(start: nat)
      requires start <= realColumns <= visibleColumns <= |columns|
      requires forall j :: start <= j < visibleColumns ==> 0 <= columns[j].shape.parent < j
      modifies this`columns
      ensures Numbered(old(columns), columns, start, visibleColumns, realColumns)
    {
      hide Numbered;
      ghost var was := columns;
      NumberedStart(was, start, realColumns);
      var j := start;
      while j < visibleColumns
        invariant start <= j <= visibleColumns
        invariant Numbered(was, columns, start, j, realColumns)
      {
        ghost var before := columns;
        NumberedNext(was, columns, start, j, realColumns);
        columns := columns[j := columns[j].(index := j)];
        var key := columns[j].shape.property.key;
        var parent := columns[j].shape.parent;
        var p := columns[parent];
        columns := columns[parent := p.(deriveds := p.deriveds[key := j],
                                        derivedCount := p.derivedCount + if j < realColumns then 1 else 0)];
        assert columns == NumberOne(before, j, realColumns);
        j := j + 1;
      }
    }

    /** Expands the derived properties of the real columns from `index` on, and numbers the columns. */
    method ProcessDerivedColumns(index: nat, expand: bool) returns (ret: nat)
      requires Valid()
      modifies this
      ensures Valid() && baseColumns == old(baseColumns)
      ensures ret == |columns| - |old(columns)|
      ensures index >= old(realColumns) ==> columns == old(columns) && orderBy == old(orderBy)
      ensures index < old(realColumns) ==>
        Expanded(Shapes(old(columns)), Shapes(columns), old(realColumns), old(visibleColumns),
                 realColumns, visibleColumns,
                 index, expand)
      ensures index < old(realColumns) ==> orderBy == old(orderBy) + Orderings(Shapes(columns), index, realColumns)
      ensures forall j :: 0 <= j < visibleColumns ==> columns[j].index == j
      ensures |columns| - visibleColumns == |old(columns)| - old(visibleColumns)
      ensures NumbersBehind(columns, |columns| - visibleColumns)
              == NumbersBehind(old(columns), |columns| - visibleColumns)
      ensures var firstNew := if index < baseColumns then baseColumns else index;
              index < old(realColumns) ==> forall k, key :: 0 <= k < realColumns ==>
                LooksUp(old(columns), columns, old(realColumns), firstNew, visibleColumns, index, expand, k, key)
      ensures var firstNew := if index < baseColumns then baseColumns else index;
              index < old(realColumns) ==> forall k :: 0 <= k < realColumns ==>
                columns[k].derivedCount == ChildCount(Shapes(columns), firstNew, realColumns, k)
                                           + if k < old(realColumns) then old(columns)[k].derivedCount else 0
    {
      hide AllKids, LastChild, ChildCount, Orderings, Shapes, LooksUp, Marked, Expanding, Expanded, Numbered,
           NumbersBehind;
      if index >= realColumns {
        return 0;
      }
      ghost var was, r0, v0 := columns, realColumns, visibleColumns;
      ghost var rs, vs;
      ret, rs, vs := ExpandColumns(index, expand);
      var start := if index < baseColumns then baseColumns else index;
      ghost var mid := columns;
      if expand {
        ExpandingEnds(was, mid, r0, v0, rs, vs, index);
        StillLaidOut(was, mid, r0, v0, rs, vs, index, baseColumns);
        ExpandingReals(was, mid, r0, v0, rs, vs, index);
      } else {
        NotExpanded(Shapes(was), r0, v0, index);
      }
      FinalizeIndices(start);
      NumberedFacts(mid, columns, start, visibleColumns, realColumns);
      OrderingsOfReals(Shapes(columns), index, realColumns);
      forall k, key | 0 <= k < realColumns
        ensures LooksUp(was, columns, r0, start, visibleColumns, index, expand, k, key)
      {
        LooksUpInTheEnd(was, mid, columns, r0, start, visibleColumns, index, expand, k, key, realColumns);
      }
    }
  }
}
