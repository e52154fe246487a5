/**
 Iterators over a sparse vector, and copying a range between two iterators of another vector.
 */
module SparseCursor {
  import opened Options
  import opened BlockNodes
  import opened NodeEdits
  import opened SparseVector

  /** An iterator position: a node of the map and an index into the rows it shows. */
  datatype Cursor = Cursor(node: nat, index: int)

  /** The cursor stands for the position `k`, which may be the end. */
  ghost predicate IsAt<T>(ns: seq<Node<T>>, c: Cursor, k: int) {
    && WellFormed(ns)
    && 1 <= c.node <= |ns|
    && (if c.node < |ns| then 0 <= c.index < ns[c.node].range else c.index == 0)
    && k == ns[c.node - 1].key + c.index
  }

  class BlockIterator<T> {
    const cont: QSparseVector<T>
    var at: Cursor

    constructor (cont: QSparseVector<T>, at: Cursor)
      ensures this.cont == cont && this.at == at
    {
      this.cont := cont;
      this.at := at;
    }

    method Key() returns (key: int)
      requires exists k :: IsAt(cont.nodes, at, k)
      ensures IsAt(cont.nodes, at, key)
    {
      key := at.index + cont.nodes[at.node - 1].key;
    }

    method BlockOverflow(ghost target: int)
      requires WellFormed(cont.nodes) && 1 <= at.node <= |cont.nodes| && 0 <= at.index
      requires target == cont.nodes[at.node - 1].key + at.index
      modifies this
      ensures IsAt(cont.nodes, at, if target <= Size(cont.nodes) then target else Size(cont.nodes))
    {
      NodeFacts(cont.nodes);
      while at.node != |cont.nodes| && at.index >= cont.nodes[at.node].range
        invariant 1 <= at.node <= |cont.nodes| && 0 <= at.index
        invariant target == cont.nodes[at.node - 1].key + at.index
        decreases |cont.nodes| - at.node
      {
        at := Cursor(at.node + 1, at.index - cont.nodes[at.node].range);
      }
      if at.node == |cont.nodes| {
        at := at.(index := 0);
      }
    }

    method BlockUnderflow(ghost target: int)
      requires WellFormed(cont.nodes) && 1 <= at.node <= |cont.nodes| && at.index < 0
      requires target == cont.nodes[at.node - 1].key + at.index
      modifies this
      ensures if 0 <= target then IsAt(cont.nodes, at, target) else at == Cursor(0, 0)
    {
      NodeFacts(cont.nodes);
      while at.node != 0 && at.index < 0
        invariant at.node <= |cont.nodes|
        invariant if at.node == 0 then at.index == target < 0 else target == cont.nodes[at.node - 1].key + at.index
        invariant at.node < |cont.nodes| && at.node > 0 ==> at.index < cont.nodes[at.node].range
        invariant at.node == |cont.nodes| ==> at.index < 0
        decreases at.node
      {
        at := Cursor(at.node - 1, at.index + cont.nodes[at.node - 1].range);
      }
      if at.node == 0 {
        at := at.(index := 0);
      }
    }

    /** Moves by `offset` rows: lands on the target, the end for a target past it, and runs off the
        map (onto the node in front of the first row) for a target before the start. */
    method Advance(offset: int, ghost k: int)
      requires IsAt(cont.nodes, at, k)
      requires at.node == |cont.nodes| ==> offset < 0
      modifies this
      ensures if k + offset < 0 then at == Cursor(0, 0)
              else IsAt(cont.nodes, at, if k + offset <= Size(cont.nodes) then k + offset else Size(cont.nodes))
    {
      NodeFacts(cont.nodes);
      at := at.(index := at.index + offset);
      if at.index < 0 {
        BlockUnderflow(k + offset);
      } else if at.index >= cont.nodes[at.node].range {
        BlockOverflow(k + offset);
      }
    }

    /** On a row or at the end, or in front of all rows. */
    ghost predicate AtOrBefore(k: int)
      reads this, cont
    {
      IsAt(cont.nodes, at, k) || (WellFormed(cont.nodes) && at == Cursor(0, 0) && k == 0)
    }

    /** Moves to the first populated row at or behind the current one, or to the end. */
    method SkipGap(ghost k: int) returns (ghost found: int)
      requires AtOrBefore(k)
      modifies this
      ensures IsAt(cont.nodes, at, found) && 0 <= k <= found <= |RowsOf(cont.nodes)|
      ensures forall p :: k <= p < found ==> RowsOf(cont.nodes)[p] == None
      ensures found < |RowsOf(cont.nodes)| ==> RowsOf(cont.nodes)[found].Some?
    {
      hide RowsOf, Tiled, Flat;
      NodeFacts(cont.nodes);
      SameLengths(cont.nodes);
      found := k;
      while at.node != |cont.nodes| && cont.nodes[at.node].block == []
        invariant AtOrBefore(found) && 0 <= k <= found <= |RowsOf(cont.nodes)|
        invariant forall p :: k <= p < found ==> RowsOf(cont.nodes)[p] == None
        decreases |cont.nodes| - at.node
      {
        if at.node != 0 {
          GapRows(cont.nodes, at.node);
        }
        found := cont.nodes[at.node].key;
        at := Cursor(at.node + 1, 0);
      }
      if at.node == |cont.nodes| {
        at := at.(index := 0);
      } else {
        CursorRow(cont.nodes, at, found);
      }
    }

    /** The target, or the end it is beyond. */
    ghost function Clamped(target: int): int
      reads cont
      requires WellFormed(cont.nodes)
    {
      if target < 0 then 0 else if target <= Size(cont.nodes) then target else Size(cont.nodes)
    }

    method CheckForOverflowAndUnderflow(ghost target: int) returns (moved: bool)
      requires WellFormed(cont.nodes) && 1 <= at.node <= |cont.nodes|
      requires target == cont.nodes[at.node - 1].key + at.index && (at.node == |cont.nodes| ==> at.index < 0)
      modifies this
      ensures AtOrBefore(Clamped(target))
      ensures !moved ==> at == old(at) && at.node < |cont.nodes| && IsAt(cont.nodes, at, target)
      ensures moved <==> old(at.index) < 0 || old(at.index) >= cont.nodes[old(at.node)].range
    {
      NodeFacts(cont.nodes);
      if at.index < 0 {
        BlockUnderflow(target);
        UpTo(target);
      } else if at.index >= cont.nodes[at.node].range {
        BlockOverflow(target);
      } else {
        return false;
      }
      return true;
    }

    lemma UpTo(target: int)
      requires 0 <= target ==> IsAt(cont.nodes, at, target)
      ensures 0 <= target ==> target <= Size(cont.nodes)
    {
      if 0 <= target {
        NodeFacts(cont.nodes);
      }
    }

    /** Moves by `offset` rows, no further than to the ends, then on to a populated row. */
    method SkipGapFrom(offset: int, ghost k: int) returns (ghost found: int)
      requires IsAt(cont.nodes, at, k) && (at.node == |cont.nodes| ==> offset < 0)
      modifies this
      ensures var from := Clamped(k + offset);
              && 0 <= from <= found <= |RowsOf(cont.nodes)|
              && IsAt(cont.nodes, at, found)
              && (forall p :: from <= p < found ==> RowsOf(cont.nodes)[p] == None)
              && (found < |RowsOf(cont.nodes)| ==> RowsOf(cont.nodes)[found].Some?)
    {
      hide RowsOf;
      at := at.(index := at.index + offset);
      found := Clamped(k + offset);
      var moved := CheckForOverflowAndUnderflow(k + offset);
      if moved || cont.nodes[at.node].block == [] {
        found := SkipGap(found);
      } else {
        UpTo(k + offset);
        CursorRow(cont.nodes, at, found);
      }
    }
  }

  lemma NodeRow<T>(ns: seq<Node<T>>, o: nat, index: nat)
    requires WellFormed(ns) && 1 <= o < |ns| && index < ns[o].range
    ensures 0 <= ns[o - 1].key + index < |RowsOf(ns)|
    ensures RowsOf(ns)[ns[o - 1].key + index] == ns[o].Rows()[index]
  {
    hide Tiled, Flat, RowsOf;
    NodeFacts(ns);
    SwapNode(ns, o, ns[o]);
    assert ns[o := ns[o]] == ns;
    assert ns[o - 1].key == ns[o].key - ns[o].range;
  }

  lemma GapRows<T>(ns: seq<Node<T>>, o: nat)
    requires WellFormed(ns) && 1 <= o < |ns| && ns[o].block == []
    ensures 0 <= ns[o - 1].key <= ns[o].key <= |RowsOf(ns)|
    ensures forall p :: ns[o - 1].key <= p < ns[o].key ==> RowsOf(ns)[p] == None
  {
    hide Tiled, Flat, RowsOf;
    NodeFacts(ns);
    forall p | ns[o - 1].key <= p < ns[o].key ensures RowsOf(ns)[p] == None {
      NodeRow(ns, o, p - ns[o - 1].key);
    }
  }

  lemma CursorRow<T>(ns: seq<Node<T>>, c: Cursor, k: int)
    requires IsAt(ns, c, k) && c.node < |ns|
    ensures 0 <= k < |RowsOf(ns)| && RowsOf(ns)[k] == ns[c.node].Rows()[c.index]
    ensures ns[c.node].block != [] ==> RowsOf(ns)[k].Some?
  {
    hide Tiled, Flat, RowsOf;
    NodeFacts(ns);
    NodeRow(ns, c.node, c.index);
  }

  /** Iterators compare equal exactly when they stand for the same position. */
  lemma SamePosition<T>(ns: seq<Node<T>>, c: Cursor, d: Cursor, k: int, l: int)
    requires IsAt(ns, c, k) && IsAt(ns, d, l)
    ensures c == d <==> k == l
  {
    hide Tiled;
    NodeFacts(ns);
    if c.node < d.node {
      KeysBelow(ns, d.node - 1);
    } else if d.node < c.node {
      KeysBelow(ns, c.node - 1);
    }
  }

  // ----- copying a range -----

  function Unshifted<T>(ns: seq<Node<T>>): (r: seq<Node<T>>)
    ensures |r| == |ns|
  {
    seq(|ns|, i requires 0 <= i < |ns| => ns[i].(offset := 0))
  }

  /** The rows a copy sees: every block read from its front. */
  ghost function CopiedRows<T>(ns: seq<Node<T>>): seq<Option<T>>
    requires WellFormed(ns)
  {
    UnshiftedWellFormed(ns);
    RowsOf(Unshifted(ns))
  }

  lemma {:induction false} UnshiftedTiled<T>(ns: seq<Node<T>>, from: int, to: int)
    requires Tiled(ns, from, to)
    ensures Tiled(Unshifted(ns), from, to)
  {
    if ns != [] {
      assert Unshifted(ns)[1..] == Unshifted(ns[1..]);
      UnshiftedTiled(ns[1..], ns[0].key, to);
    }
  }

  lemma UnshiftedWellFormed<T>(ns: seq<Node<T>>)
    requires WellFormed(ns)
    ensures WellFormed(Unshifted(ns)) && Size(Unshifted(ns)) == Size(ns)
  {
    assert Unshifted(ns)[1..] == Unshifted(ns[1..]);
    UnshiftedTiled(ns[1..], 0, Size(ns));
  }

  /** Some row of [kb, ke) is in the node. */
  predicate Overlaps<T>(ns: seq<Node<T>>, i: int, kb: int, ke: int) {
    1 <= i < |ns| && kb < ke && ns[i - 1].key < ke && kb < ns[i].key
  }

  /** No populated node with rows of [kb, ke) reads its block through an offset. */
  predicate NoOffsets<T>(ns: seq<Node<T>>, kb: int, ke: int) {
    forall i :: 0 <= i < |ns| && Overlaps(ns, i, kb, ke) && ns[i].block != [] ==> ns[i].offset == 0
  }

  lemma CopiedRowIsRow<T>(ns: seq<Node<T>>, p: nat)
    requires WellFormed(ns) && p < |RowsOf(ns)| && NoOffsets(ns, p, p + 1)
    ensures p < |CopiedRows(ns)| && CopiedRows(ns)[p] == RowsOf(ns)[p]
  {
    hide Tiled, Flat;
    UnshiftedWellFormed(ns);
    RowAt(ns, p);
    RowAt(Unshifted(ns), p);
    SameUpperBound(ns, p);
    assert Overlaps(ns, UpperBound(ns, p), p, p + 1);
  }

  /** A copy of a slice sees its rows when no populated node of the slice reads its block through an offset. */
  lemma CopiedRowsAreRows<T>(ns: seq<Node<T>>, kb: nat, ke: nat)
    requires WellFormed(ns) && kb <= ke <= Size(ns) && NoOffsets(ns, kb, ke)
    ensures ke <= |CopiedRows(ns)| && ke <= |RowsOf(ns)| && CopiedRows(ns)[kb..ke] == RowsOf(ns)[kb..ke]
  {
    hide Tiled, Flat, RowsOf, WellFormed, CopiedRows;
    SameLengths(ns);
    forall p | kb <= p < ke
      ensures CopiedRows(ns)[p] == RowsOf(ns)[p]
    {
      assert forall i :: Overlaps(ns, i, p, p + 1) ==> Overlaps(ns, i, kb, ke);
      CopiedRowIsRow(ns, p);
    }
  }

  lemma SameLengths<T>(ns: seq<Node<T>>)
    requires WellFormed(ns)
    ensures |CopiedRows(ns)| == |RowsOf(ns)| == Size(ns)
  {
    UnshiftedWellFormed(ns);
  }

  /** The same keys, ranges and offsets, and blocks of the same sizes. */
  ghost predicate SameLayout<T>(ns: seq<Node<T>>, ms: seq<Node<T>>) {
    && |ms| == |ns|
    && forall i :: 0 <= i < |ns| ==>
         ms[i].key == ns[i].key && ms[i].range == ns[i].range && ms[i].offset == ns[i].offset
         && |ms[i].block| == |ns[i].block|
  }

  lemma {:induction false} SameLayoutTiled<T>(ns: seq<Node<T>>, ms: seq<Node<T>>, from: int, to: int)
    requires SameLayout(ns, ms) && Tiled(ns, from, to)
    ensures Tiled(ms, from, to)
  {
    if ns != [] {
      SameLayoutTiled(ns[1..], ms[1..], ns[0].key, to);
    }
  }

  lemma SameLayoutWellFormed<T>(ns: seq<Node<T>>, ms: seq<Node<T>>)
    requires SameLayout(ns, ms) && WellFormed(ns)
    ensures WellFormed(ms)
  {
    SameLayoutTiled(ns[1..], ms[1..], 0, ns[|ns| - 1].key);
  }

  /** With an offset a copy shows the wrong row wherever the block differs between a row and the offset from it. */
  lemma CopyDiffers<T>(ns: seq<Node<T>>, i: nat, index: nat)
    requires WellFormed(ns) && 1 <= i < |ns| && index < ns[i].range && ns[i].block != []
    requires ns[i].offset + index < |ns[i].block| && ns[i].block[index] != ns[i].block[ns[i].offset + index]
    ensures var p := ns[i - 1].key + index;
            && 0 <= p < |CopiedRows(ns)| && p < |RowsOf(ns)| && CopiedRows(ns)[p] != RowsOf(ns)[p]
  {
    hide Tiled, Flat, RowsOf;
    UnshiftedWellFormed(ns);
    var raw := Unshifted(ns);
    assert raw[i].block == ns[i].block && raw[i].offset == 0 && raw[i - 1].key == ns[i - 1].key
           && raw[i].range == ns[i].range;
    NodeRow(ns, i, index);
    NodeRow(raw, i, index);
  }

  /** Whatever the blocks hold, a copy of a slice sees the rows. */
  ghost predicate CopiesRight<T(!new)>(ns: seq<Node<T>>, kb: nat, ke: nat) {
    forall ms :: SameLayout(ns, ms) && WellFormed(ms) ==>
      |CopiedRows(ms)| >= ke && |RowsOf(ms)| >= ke >= kb && CopiedRows(ms)[kb..ke] == RowsOf(ms)[kb..ke]
  }

  /** It does exactly when no populated node of the slice reads its block through an offset. */
  lemma CopyExactly<T(!new)>(ns: seq<Node<T>>, kb: nat, ke: nat, x: T, y: T)
    requires WellFormed(ns) && kb <= ke <= Size(ns) && x != y
    ensures CopiesRight(ns, kb, ke) <==> NoOffsets(ns, kb, ke)
  {
    hide Tiled, Flat, RowsOf, WellFormed, CopiedRows;
    if NoOffsets(ns, kb, ke) {
      forall ms | SameLayout(ns, ms) && WellFormed(ms)
        ensures ke <= |CopiedRows(ms)| && ke <= |RowsOf(ms)| && CopiedRows(ms)[kb..ke] == RowsOf(ms)[kb..ke]
      {
        SameOffsets(ns, ms, kb, ke);
        CopiedRowsAreRows(ms, kb, ke);
      }
    } else {
      var i :| 0 <= i < |ns| && Overlaps(ns, i, kb, ke) && ns[i].block != [] && ns[i].offset != 0;
      var ms, p := Spoilt(ns, i, kb, ke, x, y);
      assert CopiedRows(ms)[kb..ke][p - kb] != RowsOf(ms)[kb..ke][p - kb];
    }
  }

  lemma SameOffsets<T>(ns: seq<Node<T>>, ms: seq<Node<T>>, kb: nat, ke: nat)
    requires SameLayout(ns, ms) && WellFormed(ns) && NoOffsets(ns, kb, ke)
    ensures NoOffsets(ms, kb, ke) && Size(ms) == Size(ns)
  {
    assert forall i :: Overlaps(ms, i, kb, ke) <==> Overlaps(ns, i, kb, ke);
  }

  /** Block contents for which a node with an offset is copied wrong in the slice. */
  lemma Spoilt<T>(ns: seq<Node<T>>, i: nat, kb: nat, ke: nat, x: T, y: T)
    returns (ms: seq<Node<T>>, p: nat)
    requires WellFormed(ns) && kb <= ke <= Size(ns) && x != y
    requires Overlaps(ns, i, kb, ke) && ns[i].block != [] && ns[i].offset != 0
    ensures SameLayout(ns, ms) && WellFormed(ms) && kb <= p < ke
    ensures |CopiedRows(ms)| == |RowsOf(ms)| >= ke && CopiedRows(ms)[p] != RowsOf(ms)[p]
  {
    hide Tiled, Flat, RowsOf, CopiedRows;
    NodeFacts(ns);
    p := if kb <= ns[i - 1].key then ns[i - 1].key else kb;
    var index := p - ns[i - 1].key;
    var block := ns[i].block[index := x][ns[i].offset + index := y];
    ms := ns[i := ns[i].(block := block)];
    SameLayoutWellFormed(ns, ms);
    SameLengths(ms);
    CopyDiffers(ms, i, index);
  }

  lemma SameUpperBound<T>(ns: seq<Node<T>>, p: int)
    ensures UpperBound(Unshifted(ns), p) == UpperBound(ns, p)
  {
    var o, u := UpperBound(ns, p), UpperBound(Unshifted(ns), p);
    assert forall i :: 0 <= i < |ns| ==> Unshifted(ns)[i].key == ns[i].key;
  }

  lemma JoinedSlices<R>(x: seq<R>, y: seq<R>)
    ensures (x + y)[..|x|] == x
    ensures forall k :: 0 <= k <= |y| ==> (x + y)[|x| + k..] == y[k..]
  {
  }

  /** Two overwrites next to each other are one. */
  lemma OverwriteOn<T>(s: seq<Option<T>>, position: nat, a: seq<Option<T>>, b: seq<Option<T>>)
    ensures Overwrite(Overwrite(s, position, a), position + |a|, b) == Overwrite(s, position, a + b)
  {
    var one := Overwrite(s, position, a);
    var head := Pad(s, position)[..position];
    var front := head + a;
    var end := position + |a|;
    var tail := if end <= |s| then s[end..] else [];
    assert one == front + tail && |front| == end;
    hide Overwrite, Pad;
    JoinedSlices(front, tail);
    OverwriteInside(one, end, b);
    OverwriteInside(s, position, a + b);
    assert front + b == head + (a + b);
    assert |b| <= |tail| && end <= |s| ==> tail[|b|..] == s[end + |b|..];
  }

  lemma OverwriteInside<T>(s: seq<Option<T>>, position: nat, rows: seq<Option<T>>)
    ensures |Pad(s, position)| >= position
    ensures Overwrite(s, position, rows)
            == Pad(s, position)[..position] + rows + (if position + |rows| <= |s| then s[position + |rows|..] else [])
    ensures position <= |s| ==> Pad(s, position) == s
  {
  }

  /** Overwriting the gap just inserted is inserting. */
  lemma FillGap<T>(s: seq<Option<T>>, position: nat, rows: seq<Option<T>>)
    ensures Overwrite(InsertRows(s, position, Gaps(|rows|)), position, rows) == InsertRows(s, position, rows)
  {
    var wide := InsertRows(s, position, Gaps(|rows|));
    assert wide[..position] == Pad(s, position)[..position];
    assert wide[position + |rows|..] == Pad(s, position)[position..];
  }

  /** No row of [from, to) is populated. */
  ghost predicate GapOver<T>(s: seq<Option<T>>, from: nat, to: nat) {
    forall p :: from <= p < to && p < |s| ==> s[p] == None
  }

  lemma NotInPlace<T>(ns: seq<Node<T>>, position: nat, range: nat, replace: Option<seq<T>>)
    requires WellFormed(ns) && range > 0 && GapOver(RowsOf(ns), position, position + range)
    ensures !InPlace(ns, position, range, replace)
  {
    hide Tiled, Flat, RowsOf;
    NodeFacts(ns);
    RowAt(ns, position);
    var o := UpperBound(ns, position);
  }

  /** What a copied piece of one node shows. */
  lemma CopiedPart<T>(ns: seq<Node<T>>, i: nat, from: nat, to: nat, block: seq<T>)
    requires WellFormed(ns) && 1 <= i < |ns| && from <= to <= ns[i].range
    requires if ns[i].block == [] then block == []
             else to - from <= |block| && to <= |ns[i].block| && block[..to - from] == ns[i].block[from..to]
    ensures 0 <= ns[i - 1].key && ns[i - 1].key + to <= |CopiedRows(ns)|
    ensures CopiedRows(ns)[ns[i - 1].key + from..ns[i - 1].key + to] == FreshRows(to - from, block)
  {
    hide Tiled, Flat, RowsOf;
    UnshiftedWellFormed(ns);
    NodeFacts(ns);
    var raw := Unshifted(ns);
    assert raw[i].block == ns[i].block && raw[i].offset == 0 && raw[i - 1].key == ns[i - 1].key
           && raw[i].range == ns[i].range;
    var start := ns[i - 1].key + from;
    NodeFacts(raw);
    CutKeys(raw, i);
    forall p | start <= p < ns[i - 1].key + to
      ensures CopiedRows(ns)[p] == FreshRows(to - from, block)[p - start]
    {
      NodeRow(raw, i, p - ns[i - 1].key);
      assert block != [] ==> block[..to - from][p - start] == ns[i].block[from..to][p - start];
    }
  }

  lemma CutKeys<T>(ns: seq<Node<T>>, i: nat)
    requires WellFormed(ns) && 1 <= i < |ns|
    ensures 0 <= ns[i - 1].key && ns[i - 1].key + ns[i].range <= |RowsOf(ns)|
  {
    NodeFacts(ns);
  }

  /** Resets a stretch of a gap to (the front of) a block, or to a gap when there is none. */
  method CopyPiece<T>(target: QSparseVector<T>, position: nat, count: nat, block: seq<T>)
    requires target.Valid() && count > 0 && GapOver(target.Contents(), position, position + count)
    requires block != [] ==> count <= |block|
    modifies target
    ensures target.Valid()
    ensures target.Contents() == Overwrite(old(target.Contents()), position, FreshRows(count, block))
  {
    var replace := if block != [] then Some(block) else None;
    NotInPlace(target.nodes, position, count, replace);
    ResetIsSafe(target.nodes, position, count, replace);
    var _ := target.ResetImpl(position, count, replace);
  }

  /** The piece of the source between two positions, copied so far. */
  ghost predicate Copied<T>(was: seq<Option<T>>, now: seq<Option<T>>, position: nat, rows: seq<Option<T>>) {
    now == if rows == [] then was else Overwrite(was, position, rows)
  }

  lemma CopiedOn<T>(
    was: seq<Option<T>>, now: seq<Option<T>>, then_: seq<Option<T>>, position: nat, a: seq<Option<T>>,
        b: seq<Option<T>>)
    requires Copied(was, now, position, a) && then_ == Overwrite(now, position + |a|, b) && b != []
    ensures Copied(was, then_, position, a + b)
  {
    if a == [] {
      assert a + b == b;
    } else {
      OverwriteOn(was, position, a, b);
    }
  }

  lemma StillGap<T>(was: seq<Option<T>>, now: seq<Option<T>>, position: nat, rows: seq<Option<T>>, to: nat)
    requires GapOver(was, position, to) && Copied(was, now, position, rows)
    ensures GapOver(now, position + |rows|, to)
  {
  }

  /** Copies the piece [from, to) of one source node: its block cut at the end of the piece and at its start. */
  method CopyNode<T>(target: QSparseVector<T>, position: nat, source: QSparseVector<T>, node: nat, from: nat, to: nat,
                     ghost was: seq<Option<T>>, ghost start: nat, ghost kb: nat, ghost ke: nat)
    requires target != source && target.Valid() && source.Valid()
    requires 1 <= node < |source.nodes| && from < to <= source.nodes[node].range
    requires var k := source.nodes[node - 1].key + from;
             && kb <= k <= |CopiedRows(source.nodes)| && position == start + (k - kb)
             && Copied(was, target.Contents(), start, CopiedRows(source.nodes)[kb..k])
             && k + (to - from) <= ke
    requires GapOver(was, start, start + (ke - kb))
    modifies target
    ensures target.Valid() && source.Valid()
    ensures var k := source.nodes[node - 1].key + to;
            && kb <= k <= |CopiedRows(source.nodes)|
            && Copied(was, target.Contents(), start, CopiedRows(source.nodes)[kb..k])
  {
    hide Tiled, Flat, RowsOf, Overwrite, CopiedRows, FreshRows, Copied;
    NodeFacts(source.nodes);
    var block := source.nodes[node].block;
    if block != [] && to < source.nodes[node].range {
      block := block[..to];
    }
    if block != [] {
      block := block[from..];
    }
    ghost var raw, now := CopiedRows(source.nodes), target.Contents();
    ghost var first := source.nodes[node - 1].key;
    StillGap(was, now, start, raw[kb..first + from], position + (to - from));
    CopiedPart(source.nodes, node, from, to, block);
    CopyPiece(target, position, to - from, block);
    CopiedOn(was, now, target.Contents(), start, raw[kb..first + from], raw[first + from..first + to]);
    SliceConcat(raw, kb, first + from, first + to);
  }

  /** Replaces the gap from `position` on with the rows between two iterators of another vector. */
  method ReplaceRange<T>(target: QSparseVector<T>, position: nat, source: QSparseVector<T>, begin: Cursor, end: Cursor,
                         ghost kb: nat, ghost ke: nat)
    requires target != source && target.Valid()
    requires IsAt(source.nodes, begin, kb) && IsAt(source.nodes, end, ke) && kb <= ke
    requires GapOver(target.Contents(), position, position + (ke - kb))
    modifies target
    ensures target.Valid() && ke <= |CopiedRows(source.nodes)|
    ensures Copied(old(target.Contents()), target.Contents(), position, CopiedRows(source.nodes)[kb..ke])
  {
    hide Tiled, Flat, RowsOf, Overwrite, CopiedRows, Copied, GapOver;
    ghost var was := target.Contents();
    ghost var ns := source.nodes;
    CursorOrder(ns, begin, end, kb, ke);
    NothingCopied(was, position);
    assert CopiedRows(ns)[kb..kb] == [];
    var cur := position;
    var node := begin.node;
    if node == end.node {
      if end.index - begin.index != 0 {
        CopyNode(target, cur, source, node, begin.index, end.index, was, position, kb, ke);
      }
      return;
    }
    ghost var k := kb;
    NodeAt(ns, node);
    if begin.index != 0 {
      CopyNode(target, cur, source, node, begin.index, source.nodes[node].range, was, position, kb, ke);
      cur := cur + (source.nodes[node].range - begin.index);
      k := ns[node].key;
      node := node + 1;
    }
    while node != end.node
      invariant 1 <= node <= end.node <= |ns| && source.nodes == ns && target.Valid()
      invariant k == ns[node - 1].key && kb <= k <= ns[end.node - 1].key && cur == position + (k - kb)
      invariant Copied(was, target.Contents(), position, CopiedRows(ns)[kb..k])
    {
      NextKey(ns, node, end.node);
      NodeAt(ns, node);
      CopyNode(target, cur, source, node, 0, source.nodes[node].range, was, position, kb, ke);
      k := ns[node].key;
      cur := cur + source.nodes[node].range;
      node := node + 1;
    }
    if end.index != 0 {
      CopyNode(target, cur, source, node, 0, end.index, was, position, kb, ke);
    }
  }

  lemma SliceConcat<T>(s: seq<T>, a: nat, b: nat, c: nat)
    requires a <= b <= c <= |s|
    ensures s[a..b] + s[b..c] == s[a..c]
  {
  }

  lemma NodeAt<T>(ns: seq<Node<T>>, i: nat)
    requires WellFormed(ns) && 1 <= i < |ns|
    ensures 0 <= ns[i - 1].key && ns[i].range > 0 && ns[i].key - ns[i].range == ns[i - 1].key
  {
    NodeFacts(ns);
  }

  lemma NothingCopied<T>(was: seq<Option<T>>, position: nat)
    ensures Copied(was, was, position, [])
  {
  }

  lemma NextKey<T>(ns: seq<Node<T>>, node: nat, end: nat)
    requires WellFormed(ns) && 1 <= node < end <= |ns|
    ensures ns[node].key <= ns[end - 1].key
  {
    KeysBelow(ns, end - 1);
  }

  lemma CursorOrder<T>(ns: seq<Node<T>>, begin: Cursor, end: Cursor, kb: nat, ke: nat)
    requires IsAt(ns, begin, kb) && IsAt(ns, end, ke) && kb <= ke
    ensures begin.node <= end.node && (begin.node == end.node ==> begin.index <= end.index)
    ensures ke <= |CopiedRows(ns)|
    ensures begin.node < end.node ==> kb <= ns[begin.node].key <= ns[end.node - 1].key <= ke
  {
    hide Tiled, Flat;
    NodeFacts(ns);
    UnshiftedWellFormed(ns);
    if end.node < begin.node {
      KeysBelow(ns, begin.node - 1);
    } else if begin.node < end.node {
      KeysBelow(ns, end.node - 1);
    }
  }

  lemma GapInserted<T>(was: seq<Option<T>>, position: nat, count: nat)
    ensures GapOver(InsertRows(was, position, Gaps(count)), position, position + count)
  {
  }

  /** Inserts the rows between two iterators of another vector, as they are if none is read through an offset;
      inserting none is no different from an empty gap. */
  method InsertRange<T>(target: QSparseVector<T>, position: nat, source: QSparseVector<T>, begin: Cursor, end: Cursor,
                        ghost kb: nat, ghost ke: nat)
    requires target != source && target.Valid()
    requires IsAt(source.nodes, begin, kb) && IsAt(source.nodes, end, ke) && kb <= ke
    modifies target
    ensures ke <= |CopiedRows(source.nodes)| == |RowsOf(source.nodes)|
    ensures kb < ke || (position == 0 && old(target.Contents()) == []) <==>
            target.Valid()
            && target.Contents() == InsertRows(old(target.Contents()), position, CopiedRows(source.nodes)[kb..ke])
    ensures kb < ke && NoOffsets(source.nodes, kb, ke) ==>
              target.Contents() == InsertRows(old(target.Contents()), position, RowsOf(source.nodes)[kb..ke])
  {
    hide Tiled, Flat, RowsOf, Overwrite, InsertRows, CopiedRows, GapOver;
    ghost var was := target.Contents();
    var first := begin.index + source.nodes[begin.node - 1].key;
    var last := end.index + source.nodes[end.node - 1].key;
    target.InsertGap(position, last - first);
    CursorOrder(source.nodes, begin, end, kb, ke);
    SameLengths(source.nodes);
    if NoOffsets(source.nodes, kb, ke) {
      CopiedRowsAreRows(source.nodes, kb, ke);
    }
    ghost var rows := CopiedRows(source.nodes)[kb..ke];
    if last == first {
      // the range to copy is empty, and the copy does nothing
      assert rows == [] == Gaps(0);
      return;
    }
    FillGap(was, position, rows);
    GapInserted(was, position, |rows|);
    ReplaceRange(target, position, source, begin, end, kb, ke);
  }

  /** Such a vector comes about by two operations: a copy of all its rows is not what it holds. */
  method CopyGoesWrong<T>(one: T, other: T) returns (source: QSparseVector<T>, target: QSparseVector<T>)
    requires one != other
    ensures source.Valid() && source.Contents() == [None, Some(other)]
    ensures target.Valid() && |target.Contents()| == 2 && target.Contents() != source.Contents()
  {
    hide Tiled, Flat, RowsOf, CopiedRows, InsertRows;
    source := OffsetArises([one, other]);
    target := new QSparseVector();
    SameLengths(source.nodes);
    InsertRange(target, 0, source, Cursor(1, 0), Cursor(3, 0), 0, 2);
    CopyDiffers(source.nodes, 2, 0);
    IntoNothing(CopiedRows(source.nodes));
  }

  lemma IntoNothing<T>(rows: seq<Option<T>>)
    ensures InsertRows([], 0, rows[..|rows|]) == rows
  {
  }
}
