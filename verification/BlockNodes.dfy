/**
 The node list of a sparse vector: blocks of rows keyed by the position just past
 their last row, in key order, with the purely functional part of the ordered map they live in.
 */
module BlockNodes {
  import opened Options

  /** A run of `range` rows ending before `key`: a gap when `block` is empty, else block[offset..offset+range]. */
  datatype Node<+T> = Node(key: int, range: nat, offset: nat, block: seq<T>) {
    predicate Fits() {
      block != [] ==> offset + range <= |block|
    }

    /** The rows shown. With Fits(), a populated node never reads past its block. */
    function Rows(): (rows: seq<Option<T>>)
      ensures |rows| == range
    {
      seq(range, i requires 0 <= i < range => if offset + i < |block| then Some(block[offset + i]) else None)
    }
  }

  /** The node every map holds at key 0. */
  function Sentinel<T>(): Node<T> {
    Node(0, 0, 0, [])
  }

  function Gaps<T>(n: nat): seq<Option<T>> {
    seq(n, _ => None)
  }

  function Somes<T>(block: seq<T>): (rows: seq<Option<T>>)
    ensures |rows| == |block|
  {
    seq(|block|, i requires 0 <= i < |block| => Some(block[i]))
  }

  /** The rows a fresh node of `range` rows shows: a gap without a block, else the front of the block. */
  function FreshRows<T>(range: nat, block: seq<T>): (rows: seq<Option<T>>)
    ensures |rows| == range
    ensures block == [] ==> rows == Gaps(range)
    ensures |block| == range ==> rows == Somes(block)
  {
    seq(range, i requires 0 <= i < range => if i < |block| then Some(block[i]) else None)
  }

  // ----- the rows of a node list -----

  /** The nodes cover [from, to) without holes, each with at least one row. */
  ghost predicate Tiled<T>(ns: seq<Node<T>>, from: int, to: int) {
    if ns == [] then from == to
    else
      && ns[0].range > 0
      && ns[0].key == from + ns[0].range
      && ns[0].Fits()
      && Tiled(ns[1..], ns[0].key, to)
  }

  ghost function Flat<T>(ns: seq<Node<T>>): seq<Option<T>>
  {
    if ns == [] then [] else ns[0].Rows() + Flat(ns[1..])
  }

  /** The list of a well-formed map: the sentinel, then tiles of [0, size). */
  ghost predicate WellFormed<T>(ns: seq<Node<T>>) {
    && ns != []
    && ns[0] == Sentinel()
    && Tiled(ns[1..], 0, ns[|ns| - 1].key)
  }

  ghost function CutKey<T>(ns: seq<Node<T>>, from: int, i: nat): int
    requires i <= |ns|
  {
    if i == 0 then from else ns[i - 1].key
  }

  lemma {:induction false} TiledBounds<T>(ns: seq<Node<T>>, from: int, to: int)
    requires Tiled(ns, from, to)
    ensures from <= to
    ensures |Flat(ns)| == to - from
    ensures CutKey(ns, from, |ns|) == to
  {
    if ns != [] {
      TiledBounds(ns[1..], ns[0].key, to);
    }
  }

  lemma {:induction false} TiledNodes<T>(ns: seq<Node<T>>, from: int, to: int)
    requires Tiled(ns, from, to)
    ensures forall i :: 0 <= i < |ns| ==> ns[i].Fits() && ns[i].range > 0
    ensures forall i :: 0 <= i < |ns| ==> ns[i].key - ns[i].range == CutKey(ns, from, i)
    ensures forall i :: 0 <= i < |ns| ==> from + ns[i].range <= ns[i].key <= to
  {
    TiledBounds(ns, from, to);
    if ns != [] {
      TiledNodes(ns[1..], ns[0].key, to);
      forall i | 1 <= i < |ns|
        ensures ns[i].Fits() && ns[i].range > 0 && ns[i].key - ns[i].range == CutKey(ns, from, i)
        ensures from + ns[i].range <= ns[i].key <= to
      {
        assert ns[1..][i - 1] == ns[i];
      }
    }
  }

  lemma SingleTile<T>(n: Node<T>, from: int)
    requires n.range > 0 && n.key == from + n.range && n.Fits()
    ensures Tiled([n], from, n.key) && Flat([n]) == n.Rows()
  {
    assert [n][1..] == [];
  }

  lemma {:induction false} FlatConcat<T>(a: seq<Node<T>>, b: seq<Node<T>>)
    ensures Flat(a + b) == Flat(a) + Flat(b)
  {
    if a == [] {
      assert a + b == b;
    } else {
      assert (a + b)[1..] == a[1..] + b;
      FlatConcat(a[1..], b);
    }
  }

  lemma {:induction false} TiledConcat<T>(a: seq<Node<T>>, b: seq<Node<T>>, from: int, mid: int, to: int)
    requires Tiled(a, from, mid) && Tiled(b, mid, to)
    ensures Tiled(a + b, from, to)
    ensures Flat(a + b) == Flat(a) + Flat(b)
  {
    TiledBounds(a, from, mid);
    TiledBounds(b, mid, to);
    FlatConcat(a, b);
    if a == [] {
      assert a + b == b;
    } else {
      assert (a + b)[1..] == a[1..] + b;
      TiledConcat(a[1..], b, a[0].key, mid, to);
    }
  }

  lemma {:induction false} TiledCut<T>(ns: seq<Node<T>>, from: int, to: int, i: nat)
    requires Tiled(ns, from, to) && i <= |ns|
    ensures Tiled(ns[..i], from, CutKey(ns, from, i))
    ensures Tiled(ns[i..], CutKey(ns, from, i), to)
  {
    if i > 0 {
      TiledCut(ns[1..], ns[0].key, to, i - 1);
      assert ns[..i][1..] == ns[1..][..i - 1];
      assert ns[i..] == ns[1..][i - 1..];
    } else {
      assert ns[..i] == [] && ns[i..] == ns;
    }
  }

  /** Where the tile list can be cut, and what the parts hold. */
  lemma TiledSplit<T>(ns: seq<Node<T>>, from: int, to: int, i: nat)
    requires Tiled(ns, from, to) && i <= |ns|
    ensures Tiled(ns[..i], from, CutKey(ns, from, i)) && Tiled(ns[i..], CutKey(ns, from, i), to)
    ensures from <= CutKey(ns, from, i) <= to
    ensures Flat(ns) == Flat(ns[..i]) + Flat(ns[i..])
    ensures |Flat(ns)| == to - from
    ensures |Flat(ns[..i])| == CutKey(ns, from, i) - from
  {
    TiledCut(ns, from, to, i);
    TiledBounds(ns, from, to);
    TiledBounds(ns[..i], from, CutKey(ns, from, i));
    TiledBounds(ns[i..], CutKey(ns, from, i), to);
    assert ns == ns[..i] + ns[i..];
    FlatConcat(ns[..i], ns[i..]);
  }

  function Shift<T>(ns: seq<Node<T>>, delta: int): (r: seq<Node<T>>)
    ensures |r| == |ns|
  {
    seq(|ns|, i requires 0 <= i < |ns| => ns[i].(key := ns[i].key + delta))
  }

  lemma {:induction false} ShiftTiled<T>(ns: seq<Node<T>>, delta: int, from: int, to: int)
    requires Tiled(ns, from, to)
    ensures Tiled(Shift(ns, delta), from + delta, to + delta)
    ensures Flat(Shift(ns, delta)) == Flat(ns)
  {
    TiledBounds(ns, from, to);
    if ns != [] {
      assert Shift(ns, delta)[1..] == Shift(ns[1..], delta);
      ShiftTiled(ns[1..], delta, ns[0].key, to);
      assert Shift(ns, delta)[0].Rows() == ns[0].Rows();
    }
  }

  // ----- the ordered map -----

  /** The first index from `i` on whose key is at least `key`, or the length. */
  function LowerFrom<T>(ns: seq<Node<T>>, key: int, i: nat): (r: nat)
    requires i <= |ns|
    ensures i <= r <= |ns|
    ensures forall j :: i <= j < r ==> ns[j].key < key
    ensures r < |ns| ==> key <= ns[r].key
    decreases |ns| - i
  {
    if i == |ns| || key <= ns[i].key then i else LowerFrom(ns, key, i + 1)
  }

  /** The first index whose key is at least `key`, or the length. */
  function LowerBound<T>(ns: seq<Node<T>>, key: int): (i: nat)
    ensures i <= |ns|
    ensures forall j :: 0 <= j < i ==> ns[j].key < key
    ensures i < |ns| ==> key <= ns[i].key
  {
    LowerFrom(ns, key, 0)
  }

  /** The first index whose key is above `key`, or the length. */
  function UpperBound<T>(ns: seq<Node<T>>, key: int): (i: nat)
    ensures i <= |ns|
    ensures forall j :: 0 <= j < i ==> ns[j].key <= key
    ensures i < |ns| ==> key < ns[i].key
  {
    LowerBound(ns, key + 1)
  }

  /** Stores a node under its key, replacing the node that had the key. */
  function Put<T>(ns: seq<Node<T>>, n: Node<T>): seq<Node<T>> {
    var i := LowerBound(ns, n.key);
    if i < |ns| && ns[i].key == n.key then ns[i := n] else ns[..i] + [n] + ns[i..]
  }

  function Erase<T>(ns: seq<Node<T>>, i: nat): seq<Node<T>>
    requires i < |ns|
  {
    ns[..i] + ns[i + 1..]
  }

  lemma NodeFacts<T>(ns: seq<Node<T>>)
    requires WellFormed(ns)
    ensures forall i :: 1 <= i < |ns| ==> ns[i].Fits() && ns[i].range > 0
    ensures forall i :: 1 <= i < |ns| ==> ns[i].key - ns[i].range == ns[i - 1].key
    ensures forall i :: 0 <= i < |ns| ==> 0 <= ns[i].key <= ns[|ns| - 1].key
  {
    var to := ns[|ns| - 1].key;
    TiledNodes(ns[1..], 0, to);
    forall i | 1 <= i < |ns|
      ensures ns[i].Fits() && ns[i].range > 0 && ns[i].key - ns[i].range == ns[i - 1].key
      ensures 0 <= ns[i].key <= to
    {
      assert ns[i] == ns[1..][i - 1];
    }
  }

  lemma {:induction false} KeysBelow<T>(ns: seq<Node<T>>, i: nat)
    requires WellFormed(ns) && i < |ns|
    ensures forall j :: 0 <= j < i ==> ns[j].key < ns[i].key
  {
    NodeFacts(ns);
    if i > 0 {
      KeysBelow(ns, i - 1);
    }
  }

  /** Where Put lands, for a list split around the place of the new key. */
  lemma PutBetween<T>(a: seq<Node<T>>, n: Node<T>, b: seq<Node<T>>)
    requires forall i :: 0 <= i < |a| ==> a[i].key < n.key
    requires b != [] ==> n.key < b[0].key
    ensures Put(a + b, n) == a + [n] + b
  {
    assert forall j :: 0 <= j < |a| ==> (a + b)[j] == a[j];
    assert b != [] ==> (a + b)[|a|] == b[0];
  }

  lemma PutOver<T>(a: seq<Node<T>>, n: Node<T>, m: Node<T>, b: seq<Node<T>>)
    requires forall i :: 0 <= i < |a| ==> a[i].key < n.key
    requires m.key == n.key
    ensures Put(a + [m] + b, n) == a + [n] + b
  {
    assert forall j :: 0 <= j < |a| ==> (a + [m] + b)[j] == a[j];
    assert (a + [m] + b)[|a|] == m;
  }

  // ----- cutting and joining whole lists -----

  ghost function Size<T>(ns: seq<Node<T>>): int
    requires ns != []
  {
    ns[|ns| - 1].key
  }

  /** The sequence of optional rows a list stands for. */
  ghost function RowsOf<T>(ns: seq<Node<T>>): (rows: seq<Option<T>>)
    requires WellFormed(ns)
    ensures |rows| == Size(ns)
  {
    FlatLength(ns);
    Flat(ns)
  }

  lemma DisassembleTiles<T>(ns: seq<Node<T>>, i: nat)
    requires WellFormed(ns) && 1 <= i <= |ns|
    ensures WellFormed(ns[..i]) && Tiled(ns[i..], ns[i - 1].key, Size(ns))
    ensures 0 <= ns[i - 1].key <= Size(ns)
  {
    TiledSplit(ns[1..], 0, Size(ns), i - 1);
    assert ns[..i][1..] == ns[1..][..i - 1];
    assert ns[i..] == ns[1..][i - 1..];
  }

  lemma FlatLength<T>(ns: seq<Node<T>>)
    requires WellFormed(ns)
    ensures |Flat(ns)| == Size(ns)
  {
    TiledBounds(ns[1..], 0, Size(ns));
  }

  lemma Disassemble<T>(ns: seq<Node<T>>, i: nat)
    requires WellFormed(ns) && 1 <= i <= |ns|
    ensures WellFormed(ns[..i]) && Tiled(ns[i..], ns[i - 1].key, Size(ns))
    ensures 0 <= ns[i - 1].key <= Size(ns)
    ensures RowsOf(ns) == RowsOf(ns[..i]) + Flat(ns[i..])
  {
    DisassembleTiles(ns, i);
    assert ns == ns[..i] + ns[i..];
    FlatConcat(ns[..i], ns[i..]);
  }

  lemma Assemble<T>(a: seq<Node<T>>, b: seq<Node<T>>, to: int)
    requires WellFormed(a) && Tiled(b, Size(a), to)
    ensures WellFormed(a + b) && Size(a + b) == to
    ensures RowsOf(a + b) == RowsOf(a) + Flat(b)
  {
    NodeFacts(a);
    TiledBounds(b, Size(a), to);
    assert Size(a + b) == to;
    assert Tiled((a + b)[1..], 0, to) by {
      assert (a + b)[1..] == a[1..] + b;
      TiledConcat(a[1..], b, 0, Size(a), to);
    }
    FlatConcat(a, b);
  }

  /** The part of a tile that is left when its first rows are covered by something else. */
  function TrimHead<T>(n: Node<T>, top: nat): Node<T>
    requires top <= n.range
  {
    n.(range := top, offset := n.offset + (n.range - top))
  }

  lemma TrimHeadRows<T>(n: Node<T>, top: nat)
    requires 0 < top <= n.range && n.Fits()
    ensures TrimHead(n, top).Fits() && TrimHead(n, top).Rows() == n.Rows()[n.range - top..]
  {
  }

  lemma HeadOn<T>(m: Node<T>, tail: seq<Node<T>>, entry: int, to: int)
    requires Tiled(tail, m.key, to) && m.range > 0 && m.key == entry + m.range && m.Fits()
    ensures Tiled([m] + tail, entry, to) && Flat([m] + tail) == m.Rows() + Flat(tail)
  {
    hide Node.Rows, Node.Fits;
    assert ([m] + tail)[1..] == tail && ([m] + tail)[0] == m;
  }

  lemma TrimHeadTiled<T>(ns: seq<Node<T>>, from: int, entry: int, to: int)
    requires Tiled(ns, from, to) && ns != [] && from <= entry <= ns[0].key
    ensures |Flat(ns)| == to - from && entry <= to
    ensures var top := ns[0].key - entry;
            if top == 0 then Tiled(ns[1..], entry, to) && Flat(ns[1..]) == Flat(ns)[entry - from..]
            else var rest := [TrimHead(ns[0], top)] + ns[1..];
                 Tiled(rest, entry, to) && Flat(rest) == Flat(ns)[entry - from..]
  {
    hide Node.Rows, Node.Fits;
    TiledBounds(ns, from, to);
    TiledBounds(ns[1..], ns[0].key, to);
    var top := ns[0].key - entry;
    assert Flat(ns) == ns[0].Rows() + Flat(ns[1..]);
    if top > 0 {
      TrimHeadRows(ns[0], top);
      HeadOn(TrimHead(ns[0], top), ns[1..], entry, to);
    }
  }

  /** What is left of `tail` behind `entry`: the first node cut at it, even down to no rows. */
  function Trimmed<T>(tail: seq<Node<T>>, entry: int): (rest: seq<Node<T>>)
    ensures rest != [] ==> entry <= rest[0].key
  {
    var j := LowerBound(tail, entry);
    if j == |tail| then []
    else
      var top := tail[j].key - entry;
      (if top <= tail[j].range then [TrimHead(tail[j], top)] else [tail[j]]) + tail[j + 1..]
  }

  /** `ns` without its first node when that has the key. */
  function DropKey<T>(ns: seq<Node<T>>, key: int): seq<Node<T>> {
    if ns != [] && ns[0].key == key then ns[1..] else ns
  }

  lemma PutAfter<T>(front: seq<Node<T>>, n: Node<T>, rest: seq<Node<T>>)
    requires forall i :: 0 <= i < |front| ==> front[i].key < n.key
    requires rest != [] ==> n.key <= rest[0].key
    ensures Put(front + rest, n) == front + [n] + DropKey(rest, n.key)
  {
    if rest != [] && rest[0].key == n.key {
      assert rest == [rest[0]] + rest[1..];
      assert front + rest == front + [rest[0]] + rest[1..];
      PutOver(front, n, rest[0], rest[1..]);
    } else {
      PutBetween(front, n, rest);
    }
  }
}
