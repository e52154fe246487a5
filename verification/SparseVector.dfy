/**
 The sparse row store: a map from end positions to blocks that stands for one long
 sequence of optional rows. Every method is proved against the operation on that sequence.
 */
module SparseVector {
  import opened Options
  import opened BlockNodes
  import opened NodeEdits

  class QSparseVector<T> {
    var nodes: seq<Node<T>>

    ghost predicate Valid()
      reads this
    {
      WellFormed(nodes)
    }

    ghost function Contents(): seq<Option<T>>
      requires Valid()
      reads this
    {
      RowsOf(nodes)
    }

    constructor ()
      ensures Valid() && Contents() == [] && nodes == [Sentinel()]
    {
      nodes := [Sentinel()];
    }

    /** Erases the nodes ending before `entry`. */
    method EraseCovered(o: nat, entry: int, ghost front: seq<Node<T>>, ghost tail: seq<Node<T>>)
      requires nodes == front + tail && o == |front| && tail != []
      modifies this
      ensures nodes == front + tail[LowerBound(tail, entry)..]
    {
      var top := nodes[o].key - entry;
      ghost var j := 0;
      while top < 0 && o < |nodes|
        invariant j <= |tail| && nodes == front + tail[j..]
        invariant forall i :: 0 <= i < j ==> tail[i].key < entry
        invariant j < |tail| ==> top == tail[j].key - entry
        decreases |nodes|
      {
        nodes := Erase(nodes, o);
        j := j + 1;
        if o < |nodes| {
          top := nodes[o].key - entry;
        }
      }
      assert j == LowerBound(tail, entry);
    }

    /** Cuts the node that reaches over `entry`. */
    method CutCovered(o: nat, entry: int, ghost front: seq<Node<T>>, ghost tail: seq<Node<T>>)
      requires nodes == front + tail[LowerBound(tail, entry)..] && o == |front|
      requires var j := LowerBound(tail, entry); j < |tail| ==> tail[j].key - tail[j].range <= entry
      modifies this
      ensures nodes == front + Trimmed(tail, entry)
    {
      if o < |nodes| {
        var top := nodes[o].key - entry;
        ghost var j := LowerBound(tail, entry);
        assert nodes[o] == tail[j];
        var upRemoves := nodes[o].range - top;
        if upRemoves != 0 {
          nodes := nodes[o := nodes[o].(range := nodes[o].range - upRemoves, offset := nodes[o].offset + upRemoves)];
        }
        assert nodes[o] == TrimHead(tail[j], top);
        assert nodes == front + ([TrimHead(tail[j], top)] + tail[j + 1..]);
      }
    }

    /** Stores the fresh node, if it has rows. */
    method PutReset(position: nat, range: nat, rows: seq<T>, ghost front: seq<Node<T>>, ghost rest: seq<Node<T>>)
        returns (at: nat)
      requires nodes == front + rest
      requires front != [] && front[|front| - 1].key == position
      requires forall i :: 0 <= i < |front| - 1 ==> front[i].key < position
      requires rest != [] ==> position + range <= rest[0].key
      requires range == 0 ==> DropKey(rest, position) == rest
      modifies this
      ensures nodes == front + (if range > 0 then [Node(position + range, range, 0, rows)] else [])
              + DropKey(rest, position + range)
      ensures at < |nodes| && nodes[at].key == position + range
    {
      if range > 0 {
        PutAfter(front, Node(position + range, range, 0, rows), rest);
        nodes := Put(nodes, Node(position + range, range, 0, rows));
        at := LowerBound(nodes, position + range);
        assert nodes[|front|].key == position + range;
      } else {
        at := LowerBound(nodes, position);
        assert nodes[|front| - 1].key == position;
        assert front + [] + rest == nodes;
      }
    }

    /** The past-the-end half of ResetImpl. */
    method ResetPastEnd(position: nat, range: nat, rows: seq<T>) returns (at: nat)
      requires Valid() && UpperBound(nodes, position) == |nodes|
      modifies this
      ensures nodes == ResetNodes(old(nodes), position, range, rows)
      ensures at < |nodes| && nodes[at].key == position + range
    {
      hide Trimmed, Tiled, LowerFrom, Put;
      NodeFacts(nodes);
      FrontLast(nodes, position);
      ghost var was := nodes;
      ghost var front := Front(nodes, position);
      var emptyRange := position - nodes[|nodes| - 1].key;
      if emptyRange != 0 {
        PutBetween(nodes, Node(position, emptyRange, 0, []), []);
        assert nodes + [] == nodes;
        nodes := Put(nodes, Node(position, emptyRange, 0, []));
      } else if range == 0 {
        NothingToReset(nodes, position);
      }
      assert nodes == front;
      assert front + [] == front;
      at := PutReset(position, range, rows, front, []);
      if range > 0 || emptyRange > 0 {
        BackRows(was, position + range);
      }
    }

    method ResetImpl(position: nat, range: nat, replace: Option<seq<T>>) returns (at: nat)
      requires Valid()
      requires InPlace(nodes, position, range, replace) ==> |replace.value| == range
      modifies this
      ensures nodes == ResetOutcome(old(nodes), position, range, replace)
      ensures !InPlace(old(nodes), position, range, replace) ==> at < |nodes| && nodes[at].key == position + range
    {
      hide Front, Tiled, LowerFrom, ResetNodes, Put;
      ghost var was := nodes;
      NodeFacts(was);
      var o := UpperBound(nodes, position);
      if o == |nodes| {
        at := ResetPastEnd(position, range, if replace.Some? then replace.value else []);
        return;
      }
      ghost var tail := was[o..];
      assert was[..o] + tail == was && was[..o] + [] == was[..o];
      FrontInside(was, position);
      var bottom := BottomVisible(nodes[o], position);
      if bottom != 0 {
        KeysBelow(was, o - 1);
        PutBetween(was[..o], Node(position, bottom, was[o].offset, was[o].block), tail);
        nodes := Put(nodes, Node(position, bottom, nodes[o].offset, nodes[o].block));
        o := o + 1;
      } else if range == 0 {
        at := o - 1;
        NothingToReset(was, position);
        return;
      }
      at := ResetFrom(position, range, replace, o, bottom, was);
    }

    /** ResetImpl once everything up to `position` is in place. */
    method ResetFrom(position: nat, range: nat, replace: Option<seq<T>>, o: nat, bottom: nat, ghost was: seq<Node<T>>)
        returns (at: nat)
      requires WellFormed(was) && UpperBound(was, position) < |was|
      requires bottom == BottomVisible(was[UpperBound(was, position)], position)
      requires range == 0 ==> bottom > 0
      requires InPlace(was, position, range, replace) ==> |replace.value| == range
      requires nodes == Front(was, position) + was[UpperBound(was, position)..] && o == |Front(was, position)|
      modifies this
      ensures nodes == ResetOutcome(was, position, range, replace)
      ensures !InPlace(was, position, range, replace) ==> at < |nodes| && nodes[at].key == position + range
    {
      hide Front, Back, Trimmed, DropKey, LowerFrom, WellFormed, Tiled;
      var rows := if replace.Some? then replace.value else [];
      assert nodes[o] == was[UpperBound(was, position)];
      var top := nodes[o].key - (position + range);
      if top >= 0 {
        if bottom == 0 && top == 0 {
          nodes := nodes[o := nodes[o].(block := rows, offset := 0)];
          at := o;
          ExactReset(was, position, range, rows);
          return;
        }
        if replace.Some? && nodes[o].block != [] {
          InPlaceReset(was, position, range, rows);
          nodes := nodes[o := nodes[o].(block := nodes[o].block[..bottom] + rows + nodes[o].block[bottom + |rows|..])];
          at := o;
          return;
        }
      }
      FrontLast(was, position);
      ResetTail(was, position, range);
      at := ResetBehind(position, range, rows, o, Front(was, position), was[UpperBound(was, position)..]);
    }

    /** The end of ResetImpl: the covered nodes go, the fresh one comes in. */
    method ResetBehind(position: nat, range: nat, rows: seq<T>, o: nat, ghost front: seq<Node<T>>,
        ghost tail: seq<Node<T>>)
        returns (at: nat)
      requires nodes == front + tail && o == |front| && tail != []
      requires front != [] && front[|front| - 1].key == position
      requires forall i :: 0 <= i < |front| - 1 ==> front[i].key < position
      requires var j := LowerBound(tail, position + range); j < |tail| ==>
               tail[j].key - tail[j].range <= position + range
      requires range == 0 ==> DropKey(Trimmed(tail, position), position) == Trimmed(tail, position)
      modifies this
      ensures nodes == front + (if range > 0 then [Node(position + range, range, 0, rows)] else [])
                       + DropKey(Trimmed(tail, position + range), position + range)
      ensures at < |nodes| && nodes[at].key == position + range
    {
      hide Trimmed, LowerFrom, DropKey;
      EraseCovered(o, position + range, front, tail);
      CutCovered(o, position + range, front, tail);
      at := PutReset(position, range, rows, front, Trimmed(tail, position + range));
    }

    method Find(key: nat) returns (row: Option<T>)
      requires Valid()
      ensures row == if key < |Contents()| then Contents()[key] else None
    {
      NodeFacts(nodes);
      RowAt(nodes, key);
      var o := UpperBound(nodes, key);
      if o == |nodes| || nodes[o].block == [] {
        row := None;
      } else {
        row := Some(nodes[o].block[key - nodes[o].key + nodes[o].range + nodes[o].offset]);
      }
    }

    method Size() returns (n: nat)
      requires Valid()
      ensures n == |Contents()|
    {
      NodeFacts(nodes);
      n := nodes[|nodes| - 1].key;
    }

    method Reset(position: nat, gapRange: nat)
      requires Valid()
      modifies this
      ensures nodes == ResetOutcome(old(nodes), position, gapRange, None)
      ensures Valid() && Contents() == Overwrite(old(Contents()), position, Gaps(gapRange))
    {
      ResetIsSafe(nodes, position, gapRange, None);
      var _ := ResetImpl(position, gapRange, None);
    }

    method ReplaceRow(position: nat, value: T)
      requires Valid()
      modifies this
      ensures Valid() && Contents() == Overwrite(old(Contents()), position, [Some(value)])
    {
      hide Tiled, LowerFrom, ResetOutcome;
      NodeFacts(nodes);
      RowAt(nodes, position);
      var o := UpperBound(nodes, position);
      if o < |nodes| && nodes[o].block != [] {
        WriteRow(nodes, o, position, value);
        var at := position - nodes[o].key + nodes[o].range + nodes[o].offset;
        nodes := nodes[o := nodes[o].(block := nodes[o].block[at := value])];
      } else {
        ResetIsSafe(nodes, position, 1, Some([value]));
        assert Somes([value]) == [Some(value)];
        var _ := ResetImpl(position, 1, Some([value]));
      }
    }

    method ReplaceBlock(position: nat, block: seq<T>)
      requires Valid()
      modifies this
      ensures nodes == ResetOutcome(old(nodes), position, |block|, Some(block))
      ensures SafeReplace(old(nodes), position, |block|, Some(block)) ==>
                Valid() && Contents() == Overwrite(old(Contents()), position, Somes(block))
    {
      if SafeReplace(nodes, position, |block|, Some(block)) {
        ResetIsSafe(nodes, position, |block|, Some(block));
      }
      var _ := ResetImpl(position, |block|, Some(block));
    }

    /** The loop that shifts the nodes behind `rend` up. */
    method ShiftBehind(rend: nat, range: nat)
      requires Valid() && rend < |nodes|
      modifies this
      ensures nodes == old(nodes)[..rend + 1] + (if range > 0 then Shift(old(nodes)[rend + 1..], range) else [])
    {
      hide Put, Erase, Shift, Tiled;
      ghost var w := nodes;
      var ri := |nodes| - 1;
      assert w[..|w|] == w;
      while ri != rend
        invariant rend <= ri < |w|
        invariant nodes == w[..ri + 1] + (if range > 0 then Shift(w[ri + 1..], range) else [])
      {
        ShiftedStep(w, ri, range);
        nodes := Put(nodes, nodes[ri].(key := nodes[ri].key + range));
        nodes := Erase(nodes, ri);
        ri := ri - 1;
      }
    }

    /** Shifts everything behind `position` up and stores a node in the opening. */
    method InsertNode(position: nat, range: nat, block: seq<T>)
      requires Valid()
      requires block == [] || |block| == range
      modifies this
      ensures range > 0 || (position == 0 && old(Contents()) == []) <==>
              Valid() && Contents() == InsertRows(old(Contents()), position, FreshRows(range, block))
    {
      hide Put, Tiled, LowerFrom, ResetNodes;
      var rend := LowerBound(nodes, position);
      if rend == |nodes| || nodes[rend].key != position {
        ResetIsSafe(nodes, position, 0, None);
        rend := ResetImpl(position, 0, None);
      }
      ghost var w := nodes;
      PaddedTo(old(Contents()), w, rend, position);
      InsertOutcome(old(Contents()), w, rend, position, range, block);
      ShiftBehind(rend, range);
      nodes := Put(nodes, Node(position + range, range, 0, block));
    }

    method InsertGap(position: nat, gapRange: nat)
      requires Valid()
      modifies this
      ensures gapRange > 0 || (position == 0 && old(Contents()) == []) <==>
              Valid() && Contents() == InsertRows(old(Contents()), position, Gaps(gapRange))
    {
      InsertNode(position, gapRange, []);
    }

    method InsertBlock(position: nat, block: seq<T>)
      requires Valid()
      modifies this
      ensures block != [] || (position == 0 && old(Contents()) == []) <==>
              Valid() && Contents() == InsertRows(old(Contents()), position, Somes(block))
    {
      InsertNode(position, |block|, block);
    }

    method Append(block: seq<T>)
      requires Valid()
      modifies this
      ensures var end := |old(Contents())|; nodes == Put(old(nodes), Node(end + |block|, |block|, 0, block))
      ensures block != [] || old(Contents()) == [] <==> Valid() && Contents() == old(Contents()) + Somes(block)
    {
      NodeFacts(nodes);
      var end := nodes[|nodes| - 1].key;
      AppendOutcome(nodes, block);
      nodes := Put(nodes, Node(end + |block|, |block|, 0, block));
    }

    /** Moves one node down by `range`; the node behind it is next. */
    method ShiftOneDown(ri: nat, range: nat, ghost w: seq<Node<T>>, ghost at: nat, ghost k: nat) returns (next: nat)
      requires WellFormed(w) && at < k < |w|
      requires range > 0 ==> at >= 1 && w[at].range == range
      requires nodes == Closing(w, at, k, range) && ri == if range > 0 then k - 1 else at
      modifies this
      ensures nodes == Closing(w, at, k + 1, range) && next == if range > 0 then k else at
    {
      hide *;
      ClosingStep(w, at, k, range);
      var before := |nodes|;
      nodes := Put(nodes, nodes[ri].(key := nodes[ri].key - range));
      next := if |nodes| > before then ri + 1 else ri;
      nodes := Erase(nodes, next);
    }

    /** The loop that erases a node and shifts those behind it down. */
    method CloseBehind(at: nat, range: nat)
      requires Valid() && at < |nodes|
      requires range > 0 ==> at >= 1 && nodes[at].range == range
      modifies this
      ensures nodes == Closing(old(nodes), at, |old(nodes)|, range)
    {
      hide Closing, Tiled, Put, Erase, Shift;
      ghost var w := nodes;
      var ri := at;
      ClosingStart(w, at, range);
      nodes := Erase(nodes, ri);
      ghost var k := at + 1;
      while ri < |nodes|
        invariant at < k <= |w| && nodes == Closing(w, at, k, range)
        invariant ri == if range > 0 then k - 1 else at
        decreases |w| - k
      {
        ri := ShiftOneDown(ri, range, w, at, k);
        k := k + 1;
      }
    }

    method Remove(position: nat, range: nat)
      requires Valid()
      modifies this
      ensures range > 0 || position > |old(Contents())| <==>
              Valid() && Contents() == RemoveRows(old(Contents()), position, range)
    {
      ghost var was := nodes;
      ResetIsSafe(nodes, position, range, None);
      var at := ResetImpl(position, range, None);
      if range > 0 {
        FreshAt(was, at, position, range, []);
        NodeFacts(nodes);
      }
      RemoveOutcome(was, nodes, at, position, range);
      CloseBehind(at, range);
    }

    method ResizeTo(newSize: nat)
      requires Valid()
      modifies this
      ensures Valid() && |Contents()| == newSize
      ensures forall i :: 0 <= i < newSize ==>
                Contents()[i] == if i < |old(Contents())| then old(Contents())[i] else None
      ensures Contents() == Resize(old(Contents()), newSize)
    {
      var oldSize := Size();
      if newSize > oldSize {
        InsertGap(oldSize, newSize - oldSize);
      } else if newSize < oldSize {
        Remove(newSize, oldSize - newSize);
      }
    }
  }

  // ----- how a vector comes to the cases above -----

  lemma OneBlock<T>(block: seq<T>)
    requires block != []
    ensures Put([Sentinel()], Node(|block|, |block|, 0, block)) == [Sentinel(), Node(|block|, |block|, 0, block)]
  {
    assert LowerBound([Sentinel<T>()], |block|) == 1;
  }

  lemma HeadReset<T>(block: seq<T>)
    requires |block| > 1
    ensures var n := |block|;
            ResetOutcome([Sentinel(), Node(n, n, 0, block)], 0, 1, None)
            == [Sentinel(), Node(1, 1, 0, []), Node(n, n - 1, 1, block)]
  {
    var n := |block|;
    var ns := [Sentinel(), Node(n, n, 0, block)];
    assert ns[1..] == [ns[1]] && ns[1..][1..] == [];
    assert UpperBound(ns, 0) == 1 && LowerBound(ns, 1) == 1;
    assert Front(ns, 0) == [Sentinel()];
  }

  /** Resetting the first row of a block appended to an empty vector leaves the block with an offset. */
  method OffsetArises<T>(block: seq<T>) returns (v: QSparseVector<T>)
    requires |block| > 1
    ensures fresh(v) && v.Valid() && v.Contents() == [None] + Somes(block)[1..]
    ensures v.nodes == [Sentinel(), Node(1, 1, 0, []), Node(|block|, |block| - 1, 1, block)]
  {
    v := new QSparseVector();
    v.Append(block);
    OneBlock(block);
    v.Reset(0, 1);
    HeadReset(block);
    assert Gaps<T>(1) == [None];
    assert [] + Somes(block) == Somes(block);
  }

  /** Replacing one row strictly inside such a block breaks the map. */
  method ReplaceBreaks<T>(block: seq<T>, position: nat, row: T) returns (v: QSparseVector<T>)
    requires 0 < position < |block|
    ensures fresh(v) && !v.Valid()
  {
    v := new QSparseVector();
    v.Append(block);
    OneBlock(block);
    assert UpperBound(v.nodes, position) == 1;
    StillCovered(v.nodes, position, [row]);
    v.ReplaceBlock(position, [row]);
  }
}
