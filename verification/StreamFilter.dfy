/**
 The filter a streaming update asks with: "the rows strictly after the last one", in a mixed ascending and
 descending order in which an unbound cell comes before any value.
 */
module StreamFilter {
  import opened Options

  /** A row: an optional value for each column. */
  type Row<V> = seq<Option<V>>

  function Cell<V>(r: Row<V>, col: int): Option<V> {
    if 0 <= col < |r| then r[col] else None
  }

  /** One ordering: by a column, or by something that is not a column (negative). */
  datatype OrderBy = OrderBy(col: int, ascending: bool)

  ghost predicate TotalOrder<V(!new)>(less: (V, V) -> bool) {
    && (forall a, b :: less(a, b) ==> !less(b, a) && a != b)
    && (forall a, b :: a == b || less(a, b) || less(b, a))
    && (forall a, b, c :: less(a, b) && less(b, c) ==> less(a, c))
  }

  predicate Lower<V(==)>(less: (V, V) -> bool, a: Option<V>, b: Option<V>) {
    match (a, b)
    case (None, None) => false
    case (None, Some(_)) => true
    case (Some(_), None) => false
    case (Some(x), Some(y)) => less(x, y)
  }

  /** The row comes strictly after the other by the orderings over columns. */
  predicate After<V(==)>(less: (V, V) -> bool, obs: seq<OrderBy>, r: Row<V>, last: Row<V>) {
    if obs == [] then false
    else if obs[0].col < 0 then After(less, obs[1..], r, last)
    else
      var a, b := Cell(r, obs[0].col), Cell(last, obs[0].col);
      || (if obs[0].ascending then Lower(less, b, a) else Lower(less, a, b))
      || (a == b && After(less, obs[1..], r, last))
  }

  // ----- filter expressions, section 17.2 of SPARQL 1.1 Query Language -----

  datatype Truth = Yes | No | Error

  datatype Filter<V> =
    | Never
    | IsBound(col: int)
    | Equal(col: int, value: V)
    | Greater(col: int, value: V)
    | Less(col: int, value: V)
    | Not(of: Filter<V>)
    | And(left: Filter<V>, right: Filter<V>)
    | Or(left: Filter<V>, right: Filter<V>)

  function Negated(t: Truth): Truth {
    match t case Yes => No case No => Yes case Error => Error
  }

  function Both(a: Truth, b: Truth): Truth {
    if a == No || b == No then No else if a == Error || b == Error then Error else Yes
  }

  function Either(a: Truth, b: Truth): Truth {
    if a == Yes || b == Yes then Yes else if a == Error || b == Error then Error else No
  }

  function Holds(b: bool): Truth {
    if b then Yes else No
  }

  /** Comparing an unbound cell is an error; an error is not overruled unless the other side decides. */
  function Eval<V(==)>(less: (V, V) -> bool, f: Filter<V>, r: Row<V>): Truth {
    match f
    case Never => No
    case IsBound(c) => Holds(Cell(r, c).Some?)
    case Equal(c, v) => if Cell(r, c).None? then Error else Holds(Cell(r, c).value == v)
    case Greater(c, v) => if Cell(r, c).None? then Error else Holds(less(v, Cell(r, c).value))
    case Less(c, v) => if Cell(r, c).None? then Error else Holds(less(Cell(r, c).value, v))
    case Not(g) => Negated(Eval(less, g, r))
    case And(g, h) => Both(Eval(less, g, r), Eval(less, h, r))
    case Or(g, h) => Either(Eval(less, g, r), Eval(less, h, r))
  }

  // ----- building the filter -----

  /** What one more ordering in front makes of the filter for the orderings behind it. */
  function Prepend<V>(ob: OrderBy, last: Row<V>, resource: int -> bool, filter: Filter<V>): Filter<V> {
    if ob.col < 0 then filter
    else
      var v := Cell(last, ob.col);
      var equal := if v.None? then Not(IsBound(ob.col)) else Equal(ob.col, v.value);
      var behind := if filter.Never? then filter else And(equal, filter);
      if v.None? && !ob.ascending then behind
      else
        var comp :=
          if v.None? then IsBound(ob.col)
          else if ob.ascending then Greater(ob.col, v.value)
          else if resource(ob.col) then Less(ob.col, v.value)
          else Or(Less(ob.col, v.value), Not(IsBound(ob.col)));
        if filter.Never? then comp else Or(comp, behind)
  }

  function Built<V>(obs: seq<OrderBy>, last: Row<V>, resource: int -> bool): Filter<V> {
    if obs == [] then Never else Prepend(obs[0], last, resource, Built(obs[1..], last, resource))
  }

  /** The filter is put together from the last ordering to the first. */
  method BuildFilter<V(==)>(obs: seq<OrderBy>, last: Row<V>, resource: int -> bool) returns (filter: Filter<V>)
    ensures filter == Built(obs, last, resource)
  {
    filter := Never;
    var i := |obs|;
    while i != 0
      invariant 0 <= i <= |obs|
      invariant filter == Built(obs[i..], last, resource)
    {
      i := i - 1;
      assert obs[i..][1..] == obs[i + 1..];
      var col := obs[i].col;
      if col < 0 {
        continue;
      }
      var item := Cell(last, col);
      var filterIsEmpty := filter.Never?;
      if !filterIsEmpty {
        filter := And(if item.None? then Not(IsBound(col)) else Equal(col, item.value), filter);
      }
      var comp;
      if item.None? {
        if obs[i].ascending {
          comp := IsBound(col);
        } else {
          continue;
        }
      } else if resource(col) {
        comp := if obs[i].ascending then Greater(col, item.value) else Less(col, item.value);
      } else {
        comp := if obs[i].ascending then Greater(col, item.value)
                else Or(Less(col, item.value), Not(IsBound(col)));
      }
      filter := if filterIsEmpty then comp else Or(comp, filter);
    }
    assert obs[0..] == obs;
  }

  // ----- what the filter means -----

  /** The first ordering column in which the rows differ is a descending one of resources, and unbound in the row. */
  predicate Hidden<V(==)>(obs: seq<OrderBy>, r: Row<V>, last: Row<V>, resource: int -> bool) {
    if obs == [] then false
    else if obs[0].col < 0 || Cell(r, obs[0].col) == Cell(last, obs[0].col) then Hidden(obs[1..], r, last, resource)
    else !obs[0].ascending && resource(obs[0].col) && Cell(r, obs[0].col).None?
  }

  lemma PrependMeans<V(!new)>(
    less: (V, V) -> bool, ob: OrderBy, last: Row<V>, resource: int -> bool, filter: Filter<V>, r: Row<V>)
    requires TotalOrder(less) && 0 <= ob.col
    ensures var a, b := Cell(r, ob.col), Cell(last, ob.col);
            Eval(less, Prepend(ob, last, resource, filter), r) == Yes <==>
              || (a == b && Eval(less, filter, r) == Yes)
              || ((if ob.ascending then Lower(less, b, a) else Lower(less, a, b))
                  && !(!ob.ascending && resource(ob.col) && a.None?))
  {
    var a, v := Cell(r, ob.col), Cell(last, ob.col);
    var equal: Filter<V> := if v.None? then Not(IsBound(ob.col)) else Equal(ob.col, v.value);
    assert Eval(less, IsBound(ob.col), r) == Holds(a.Some?);
    assert Eval(less, Not(IsBound(ob.col)), r) == Holds(a.None?);
    assert Eval(less, equal, r) == Yes <==> a == v;
    assert Eval(less, And(equal, filter), r) == Yes <==> a == v && Eval(less, filter, r) == Yes;
    if v.Some? && !ob.ascending && !resource(ob.col) {
      assert Eval(less, Or(Less(ob.col, v.value), Not(IsBound(ob.col))), r) == Yes <==> Lower(less, a, v);
    }
  }

  /** The filter holds for a row exactly when the row comes after the last one and is not hidden. */
  lemma {:induction false} FilterMeans<V(!new)>(
    less: (V, V) -> bool, obs: seq<OrderBy>, last: Row<V>, resource: int -> bool, r: Row<V>)
    requires TotalOrder(less)
    ensures Eval(less, Built(obs, last, resource), r) == Yes <==>
            After(less, obs, r, last) && !Hidden(obs, r, last, resource)
  {
    if obs != [] {
      FilterMeans(less, obs[1..], last, resource, r);
      if 0 <= obs[0].col {
        PrependMeans(less, obs[0], last, resource, Built(obs[1..], last, resource), r);
        var a, b := Cell(r, obs[0].col), Cell(last, obs[0].col);
        assert a == b ==> !Lower(less, a, b) && !Lower(less, b, a);
      }
    }
  }

  predicate DescendingBound<V>(obs: seq<OrderBy>, r: Row<V>, resource: int -> bool) {
    forall ob <- obs :: 0 <= ob.col && !ob.ascending && resource(ob.col) ==> Cell(r, ob.col).Some?
  }

  lemma {:induction false} NotHiddenWhenBound<V>(obs: seq<OrderBy>, r: Row<V>, last: Row<V>, resource: int -> bool)
    requires DescendingBound(obs, r, resource)
    ensures !Hidden(obs, r, last, resource)
  {
    if obs != [] {
      assert obs[0] in obs;
      NotHiddenWhenBound(obs[1..], r, last, resource);
    }
  }

  /** With its descending resource columns bound, a row is asked for exactly when it comes after the last one. */
  lemma FilterIsAfter<V(!new)>(
    less: (V, V) -> bool, obs: seq<OrderBy>, last: Row<V>, resource: int -> bool, r: Row<V>)
    requires TotalOrder(less) && DescendingBound(obs, r, resource)
    ensures Eval(less, Built(obs, last, resource), r) == Yes <==> After(less, obs, r, last)
  {
    FilterMeans(less, obs, last, resource, r);
    NotHiddenWhenBound(obs, r, last, resource);
  }

  /** Otherwise some row that comes after is passed over. */
  lemma FilterMisses(less: (int, int) -> bool)
    requires TotalOrder(less)
    ensures var obs := [OrderBy(0, false)];
            var r, last: Row<int> := [None], [Some(7)];
            After(less, obs, r, last) && Eval(less, Built(obs, last, c => true), r) != Yes
  {
    var obs := [OrderBy(0, false)];
    assert Built(obs, [Some(7)], c => true) == Prepend(obs[0], [Some(7)], c => true, Never) by {
      assert obs[1..] == [];
      assert Built<int>([], [Some(7)], c => true) == Never;
    }
  }

  predicate AllDescendingUnbound<V>(obs: seq<OrderBy>, last: Row<V>) {
    forall ob <- obs :: 0 <= ob.col ==> !ob.ascending && Cell(last, ob.col).None?
  }

  /** No query is made only when the last row is unbound in all its ordering columns and all are descending... */
  lemma {:induction false} NeverWhen<V>(obs: seq<OrderBy>, last: Row<V>, resource: int -> bool)
    ensures Built(obs, last, resource).Never? <==> AllDescendingUnbound(obs, last)
  {
    if obs != [] {
      NeverWhen(obs[1..], last, resource);
      assert obs == [obs[0]] + obs[1..];
    }
  }

  /** ... and then no row can follow. */
  lemma {:induction false} NoneFollows<V(!new)>(less: (V, V) -> bool, obs: seq<OrderBy>, last: Row<V>, r: Row<V>)
    requires AllDescendingUnbound(obs, last)
    ensures !After(less, obs, r, last)
  {
    if obs != [] {
      assert obs[0] in obs;
      NoneFollows(less, obs[1..], last, r);
    }
  }

  // ----- the order of rows -----

  lemma {:induction false} AfterIsStrict<V(!new)>(less: (V, V) -> bool, obs: seq<OrderBy>, r: Row<V>, s: Row<V>)
    requires TotalOrder(less)
    ensures !(After(less, obs, r, s) && After(less, obs, s, r))
    ensures !After(less, obs, r, r)
  {
    if obs != [] {
      AfterIsStrict(less, obs[1..], r, s);
    }
  }

  lemma {:induction false} AfterChains<V(!new)>(
    less: (V, V) -> bool, obs: seq<OrderBy>, r: Row<V>, s: Row<V>, t: Row<V>)
    requires TotalOrder(less) && After(less, obs, r, s) && After(less, obs, s, t)
    ensures After(less, obs, r, t)
  {
    if obs[0].col < 0 {
      AfterChains(less, obs[1..], r, s, t);
    } else {
      var a, b, c := Cell(r, obs[0].col), Cell(s, obs[0].col), Cell(t, obs[0].col);
      if a == b && b == c {
        assert !Lower(less, a, a);
        AfterChains(less, obs[1..], r, s, t);
      }
    }
  }

  predicate Differ<V(==)>(obs: seq<OrderBy>, r: Row<V>, s: Row<V>) {
    exists ob <- obs :: 0 <= ob.col && Cell(r, ob.col) != Cell(s, ob.col)
  }

  /** One of two rows comes after the other exactly when they differ in a column they are ordered by. */
  lemma {:induction false} AfterIsTotal<V(!new)>(less: (V, V) -> bool, obs: seq<OrderBy>, r: Row<V>, s: Row<V>)
    requires TotalOrder(less)
    ensures After(less, obs, r, s) || After(less, obs, s, r) <==> Differ(obs, r, s)
  {
    if obs != [] {
      AfterIsTotal(less, obs[1..], r, s);
      assert obs == [obs[0]] + obs[1..];
      var a, b := Cell(r, obs[0].col), Cell(s, obs[0].col);
      assert a != b ==> Lower(less, a, b) || Lower(less, b, a);
    }
  }
}
