/**
 What the operations of the sparse row store do to a plain sequence of optional rows,
 and what resetting, inserting and removing do to the node list: closed forms and
 the proof that each stands for the operation on the sequence.
 */
module NodeEdits {
  import opened Options
  import opened BlockNodes

  // ----- the operations on a plain sequence of optional rows -----

  /** The row at a place, a gap where there is none. */
  function RowOrGap<T>(s: seq<Option<T>>, i: int): Option<T> {
    if 0 <= i < |s| then s[i] else None
  }

  function Max(a: int, b: int): int {
    if a < b then b else a
  }

  /** `s` made at least `n` long with gaps. */
  function Pad<T>(s: seq<Option<T>>, n: nat): (r: seq<Option<T>>)
    ensures |r| == Max(|s|, n) && s <= r
    ensures forall i :: 0 <= i < |r| ==> r[i] == RowOrGap(s, i)
  {
    if n <= |s| then s else s + Gaps(n - |s|)
  }

  /** The rows from `position` on are the given ones, all others are as before. */
  function Overwrite<T>(s: seq<Option<T>>, position: nat, rows: seq<Option<T>>): (r: seq<Option<T>>)
    ensures |r| == Max(|s|, position + |rows|)
    ensures forall i :: 0 <= i < |r| ==>
              r[i] == if position <= i < position + |rows| then rows[i - position] else RowOrGap(s, i)
  {
    Pad(s, position)[..position] + rows + (if position + |rows| <= |s| then s[position + |rows|..] else [])
  }

  /** The given rows stand at `position`, those from there on behind them. */
  function InsertRows<T>(s: seq<Option<T>>, position: nat, rows: seq<Option<T>>): (r: seq<Option<T>>)
    ensures |r| == Max(|s|, position) + |rows|
    ensures forall i :: 0 <= i < |r| ==>
              r[i] == if i < position then RowOrGap(s, i)
                      else if i < position + |rows| then rows[i - position]
                      else RowOrGap(s, i - |rows|)
  {
    Pad(s, position)[..position] + rows + Pad(s, position)[position..]
  }

  /** The rows in front of `position` stay, those behind the removed ones close up. */
  function RemoveRows<T>(s: seq<Option<T>>, position: nat, count: nat): (r: seq<Option<T>>)
    ensures |r| == if count == 0 then |s| else Max(position, |s| - count)
    ensures forall i :: 0 <= i < |r| ==> r[i] == RowOrGap(s, if i < position then i else i + count)
  {
    if count == 0 then s
    else Pad(s, position)[..position] + (if position + count <= |s| then s[position + count..] else [])
  }

  function Resize<T>(s: seq<Option<T>>, size: nat): (r: seq<Option<T>>)
    ensures |r| == size && forall i :: 0 <= i < size ==> r[i] == RowOrGap(s, i)
  {
    Pad(s, size)[..size]
  }

  // ----- the overwrite that edits a block where it lies -----

  /** Resetting [position, position + range) to `replace` is answered by writing into a populated block. */
  predicate InPlace<T>(ns: seq<Node<T>>, position: nat, range: nat, replace: Option<seq<T>>) {
    var o := UpperBound(ns, position);
    && replace.Some?
    && o < |ns|
    && ns[o].block != []
    && position + range <= ns[o].key
    && !(BottomVisible(ns[o], position) == 0 && (range == 0 || position + range == ns[o].key))
  }

  /** The rows of `n` in front of `position`. */
  function BottomVisible<T>(n: Node<T>, position: int): int {
    position - (n.key - n.range)
  }

  // ----- what resetting a range leaves behind -----

  /** The nodes in front of `position`, the last one cut at it or a gap added to reach it. */
  function Front<T>(ns: seq<Node<T>>, position: nat): seq<Node<T>>
    requires ns != []
  {
    var o := UpperBound(ns, position);
    if o == |ns| then
      var missing := position - ns[|ns| - 1].key;
      if missing <= 0 then ns else ns + [Node(position, missing, 0, [])]
    else
      var bottom := BottomVisible(ns[o], position);
      if bottom <= 0 then ns[..o] else ns[..o] + [Node(position, bottom, ns[o].offset, ns[o].block)]
  }

  /** The nodes behind `entry`, the first one cut at it. */
  function Back<T>(ns: seq<Node<T>>, entry: nat): seq<Node<T>> {
    DropKey(Trimmed(ns, entry), entry)
  }

  /** `front` holds the rows of `s` up to `position`, padded. */
  ghost predicate IsFront<T>(s: seq<Option<T>>, front: seq<Node<T>>, position: nat) {
    WellFormed(front) && Size(front) == position && RowsOf(front) == Pad(s, position)[..position]
  }

  /** `back` holds the rows of `s` from `entry` on. */
  ghost predicate IsBack<T>(s: seq<Option<T>>, back: seq<Node<T>>, entry: nat) {
    if entry <= |s| then Tiled(back, entry, |s|) && Flat(back) == s[entry..] else back == []
  }

  lemma FrontPadded<T>(ns: seq<Node<T>>, position: nat)
    requires WellFormed(ns) && Size(ns) < position
    ensures var front := ns + [Node(position, position - Size(ns), 0, [])];
            WellFormed(front) && Size(front) == position && RowsOf(front) == Pad(RowsOf(ns), position)
  {
    hide Tiled;
    var gap: Node<T> := Node(position, position - Size(ns), 0, []);
    SingleTile(gap, Size(ns));
    Assemble(ns, [gap], position);
    assert gap.Rows() == Gaps(gap.range);
  }

  lemma FrontCut<T>(ns: seq<Node<T>>, o: nat, position: nat)
    requires WellFormed(ns) && 1 <= o < |ns|
    requires ns[o].key - ns[o].range < position < ns[o].key
    ensures position <= Size(ns)
    ensures var front := ns[..o] + [Node(position, BottomVisible(ns[o], position), ns[o].offset, ns[o].block)];
            WellFormed(front) && Size(front) == position && RowsOf(front) == RowsOf(ns)[..position]
  {
    hide Tiled;
    var n := ns[o];
    var mid := Node(position, BottomVisible(n, position), n.offset, n.block);
    Disassemble(ns, o);
    NodeFacts(ns);
    assert ns[o..][0] == n;
    SingleTile(mid, ns[o - 1].key);
    Assemble(ns[..o], [mid], position);
    assert mid.Rows() == n.Rows()[..mid.range];
    assert Flat(ns[o..]) == n.Rows() + Flat(ns[o..][1..]);
  }

  lemma FrontRows<T>(ns: seq<Node<T>>, position: nat)
    requires WellFormed(ns)
    ensures IsFront(RowsOf(ns), Front(ns, position), position)
  {
    hide Tiled, Flat, LowerFrom;
    var o := UpperBound(ns, position);
    if o == |ns| {
      if Size(ns) < position {
        FrontPadded(ns, position);
      }
    } else {
      Disassemble(ns, o);
      assert ns[o..][0] == ns[o];
      if BottomVisible(ns[o], position) > 0 {
        FrontCut(ns, o, position);
      }
    }
  }

  lemma TrimmedRows<T>(ns: seq<Node<T>>, entry: nat)
    requires WellFormed(ns) && 0 < entry <= Size(ns)
    ensures Tiled(Back(ns, entry), entry, Size(ns)) && Flat(Back(ns, entry)) == RowsOf(ns)[entry..]
  {
    hide Tiled, Flat, RowsOf, LowerFrom, LowerBound, Back, TrimHead;
    var j := LowerBound(ns, entry);
    Disassemble(ns, j);
    NodeFacts(ns);
    var tail := ns[j..];
    assert tail[0] == ns[j] && tail[1..] == ns[j + 1..];
    TrimHeadTiled(tail, ns[j - 1].key, entry, Size(ns));
    assert ns[j - 1].key < entry;
    BackIs(ns, entry);
    assert [] + tail[1..] == tail[1..];
  }

  lemma BackIs<T>(ns: seq<Node<T>>, entry: nat)
    requires LowerBound(ns, entry) < |ns|
    requires var n := ns[LowerBound(ns, entry)]; n.key - n.range <= entry && (n.key == entry ==> n.range > 0)
    ensures var j := LowerBound(ns, entry);
            Back(ns, entry)
            == (if ns[j].key == entry then [] else [TrimHead(ns[j], ns[j].key - entry)]) + ns[j + 1..]
  {
    hide LowerBound;
  }

  lemma BackRows<T>(ns: seq<Node<T>>, entry: nat)
    requires WellFormed(ns) && entry > 0
    ensures IsBack(RowsOf(ns), Back(ns, entry), entry)
  {
    if entry <= Size(ns) {
      TrimmedRows(ns, entry);
    } else {
      NodeFacts(ns);
    }
  }

  /** The closed form of a reset: front, the fresh node if it has rows, back. */
  function ResetNodes<T>(ns: seq<Node<T>>, position: nat, range: nat, block: seq<T>): seq<Node<T>>
    requires ns != []
  {
    Front(ns, position)
    + (if range > 0 then [Node(position + range, range, 0, block)] else [])
    + Back(ns, position + range)
  }

  /** What the code makes of the list: an edit inside one block, or the closed form. */
  function ResetOutcome<T>(ns: seq<Node<T>>, position: nat, range: nat, replace: Option<seq<T>>): seq<Node<T>>
    requires ns != []
  {
    if InPlace(ns, position, range, replace) then
      var o := UpperBound(ns, position);
      var bottom := BottomVisible(ns[o], position);
      if bottom <= 0 then ns[o := Written(ns[o], 0, replace.value)]
      else
        var split := [Node(position, bottom, ns[o].offset, ns[o].block), Written(ns[o], bottom, replace.value)];
        ns[..o] + split + ns[o + 1..]
    else ResetNodes(ns, position, range, if replace.Some? then replace.value else [])
  }

  /** The node whose block was overwritten with `rows` from block index `at` on. */
  function Written<T>(n: Node<T>, at: nat, rows: seq<T>): Node<T> {
    if at + |rows| <= |n.block| then n.(block := n.block[..at] + rows + n.block[at + |rows|..]) else n
  }

  lemma AppendFresh<T>(front: seq<Node<T>>, position: nat, range: nat, block: seq<T>)
    requires WellFormed(front) && Size(front) == position && range > 0
    requires block != [] ==> range <= |block|
    ensures var r := front + [Node(position + range, range, 0, block)];
            WellFormed(r) && Size(r) == position + range && RowsOf(r) == RowsOf(front) + FreshRows(range, block)
  {
    var n := Node(position + range, range, 0, block);
    SingleTile(n, position);
    Assemble(front, [n], position + range);
    assert n.Rows() == FreshRows(range, block);
  }

  lemma JoinRows<T>(
    s: seq<Option<T>>, front: seq<Node<T>>, fresh_: seq<Node<T>>, back: seq<Node<T>>, position: nat, range: nat,
        block: seq<T>)
    requires IsFront(s, front, position) && IsBack(s, back, position + range)
    requires fresh_ == if range > 0 then [Node(position + range, range, 0, block)] else []
    requires range > 0 && block != [] ==> range <= |block|
    ensures var r := front + fresh_ + back;
            WellFormed(r) && RowsOf(r) == Overwrite(s, position, FreshRows(range, block))
  {
    hide Tiled, RowsOf, Flat, Pad, FreshRows;
    var to := if position + range <= |s| then |s| else position + range;
    if range > 0 {
      AppendFresh(front, position, range, block);
    } else {
      assert front + [] == front;
    }
    Assemble(front + fresh_, back, to);
  }

  /** The closed form of a reset stands for the overwritten sequence, padded with gaps up to its start. */
  lemma ResetRows<T>(ns: seq<Node<T>>, position: nat, range: nat, block: seq<T>)
    requires WellFormed(ns)
    requires range > 0 && block != [] ==> range <= |block|
    ensures var r := ResetNodes(ns, position, range, block);
            WellFormed(r) && RowsOf(r) == Overwrite(RowsOf(ns), position, FreshRows(range, block))
  {
    hide Front, Back, Tiled, Flat, RowsOf, LowerFrom;
    FrontRows(ns, position);
    if position + range > 0 {
      BackRows(ns, position + range);
      JoinRows(RowsOf(ns), Front(ns, position), if range > 0 then [Node(position + range, range, 0, block)] else [],
               Back(ns, position + range), position, range, block);
    } else {
      NodeFacts(ns);
      assert ns[0].key == 0 && (1 < |ns| ==> ns[1].key > 0);
      NothingToReset(ns, position);
    }
  }

  lemma FrontLast<T>(ns: seq<Node<T>>, position: nat)
    requires WellFormed(ns)
    ensures var front := Front(ns, position);
            && front != [] && front[|front| - 1].key == position
            && (forall i :: 0 <= i < |front| - 1 ==> front[i].key < position)
  {
    hide Tiled, LowerFrom;
    NodeFacts(ns);
    KeysBelow(ns, UpperBound(ns, position) - 1);
  }

  lemma FrontInside<T>(ns: seq<Node<T>>, position: nat)
    requires WellFormed(ns) && UpperBound(ns, position) < |ns|
    ensures var o := UpperBound(ns, position);
            var bottom := BottomVisible(ns[o], position);
            && 1 <= o && 0 <= bottom && ns[o - 1].key == position - bottom
            && Front(ns, position)
               == ns[..o] + (if bottom == 0 then [] else [Node(position, bottom, ns[o].offset, ns[o].block)])
  {
    hide Tiled, LowerFrom;
    NodeFacts(ns);
    assert ns[UpperBound(ns, position) - 1].key <= position;
  }

  lemma BackExact<T>(ns: seq<Node<T>>, o: nat, entry: nat)
    requires o < |ns| && ns[o].key == entry && (forall i :: 0 <= i < o ==> ns[i].key < entry)
    ensures Back(ns, entry) == ns[o..][1..]
  {
    hide LowerFrom;
    assert LowerBound(ns, entry) == o;
    var rest := Trimmed(ns, entry);
    assert rest[0].key == entry && rest[1..] == ns[o + 1..];
  }

  lemma ExactReset<T>(ns: seq<Node<T>>, position: nat, range: nat, block: seq<T>)
    requires range > 0 && UpperBound(ns, position) < |ns|
    requires var o := UpperBound(ns, position);
             BottomVisible(ns[o], position) == 0 && ns[o].range == range && ns[o].key == position + range
    ensures var o := UpperBound(ns, position);
            && |Front(ns, position)| == o
            && (Front(ns, position) + ns[o..])[o := ns[o].(block := block, offset := 0)]
               == ResetNodes(ns, position, range, block)
  {
    hide LowerFrom, Back, UpperBound, LowerBound;
    var o := UpperBound(ns, position);
    BackExact(ns, o, position + range);
    UpdateMiddle(ns[..o], ns[o..], Node(position + range, range, 0, block));
  }

  lemma UpdateMiddle<T>(a: seq<Node<T>>, b: seq<Node<T>>, n: Node<T>)
    requires b != []
    ensures (a + b)[|a| := n] == a + [n] + b[1..]
  {
  }

  lemma InPlaceReset<T>(ns: seq<Node<T>>, position: nat, range: nat, rows: seq<T>)
    requires WellFormed(ns) && |rows| == range && InPlace(ns, position, range, Some(rows))
    ensures var o := UpperBound(ns, position);
            var front := Front(ns, position);
            var bottom := BottomVisible(ns[o], position);
            && 0 <= bottom && bottom + range <= |ns[o].block|
            && (front + ns[o..])[|front| := Written(ns[o], bottom, rows)] ==
                ResetOutcome(ns, position, range, Some(rows))
  {
    NodeFacts(ns);
    var o := UpperBound(ns, position);
    assert ns[o - 1].key <= position;
    var bottom := BottomVisible(ns[o], position);
    var w := Written(ns[o], bottom, rows);
    if bottom == 0 {
      assert ns[..o] + ns[o..] == ns;
    } else {
      var mid := Node(position, bottom, ns[o].offset, ns[o].block);
      assert (ns[..o] + [mid] + ns[o..])[o + 1 := w] == ns[..o] + [mid, w] + ns[o + 1..];
    }
  }

  lemma NothingToReset<T>(ns: seq<Node<T>>, position: nat)
    requires WellFormed(ns)
    requires var o := UpperBound(ns, position); if o < |ns| then BottomVisible(ns[o], position) == 0
             else position == Size(ns)
    ensures forall block: seq<T> :: ResetNodes(ns, position, 0, block) == ns
    ensures ns[UpperBound(ns, position) - 1].key == position
  {
    hide Tiled, LowerFrom;
    NodeFacts(ns);
    var o := UpperBound(ns, position);
    KeysBelow(ns, o - 1);
    assert LowerBound(ns, position) == o - 1;
    assert ns[..o] + [] + ns[o..] == ns;
  }

  /** A node reaching back over the one before it breaks the map. */
  lemma Overlapping<T>(ns: seq<Node<T>>, o: nat)
    requires 1 <= o < |ns| && ns[o].key - ns[o].range != ns[o - 1].key
    ensures !WellFormed(ns)
  {
    if WellFormed(ns) {
      NodeFacts(ns);
    }
  }

  /** Trimming only looks at the nodes from the first one past `position` on. */
  lemma TrimmedTail<T>(ns: seq<Node<T>>, o: nat, entry: nat)
    requires o <= LowerBound(ns, entry)
    ensures LowerBound(ns[o..], entry) == LowerBound(ns, entry) - o
    ensures Trimmed(ns[o..], entry) == Trimmed(ns, entry)
  {
    var j := LowerBound(ns, entry);
    var k := LowerBound(ns[o..], entry);
    if k < |ns| - o {
      assert ns[o..][k] == ns[o + k];
    }
    if j < |ns| {
      assert ns[o..][j - o] == ns[j];
    }
    assert k == j - o;
    assert j < |ns| ==> ns[o..][k + 1..] == ns[j + 1..];
  }

  /** The node cut at the end of a reset starts at or before it. */
  lemma CutStart<T>(ns: seq<Node<T>>, o: nat, entry: nat)
    requires WellFormed(ns) && 1 <= o <= LowerBound(ns, entry)
    ensures var j := LowerBound(ns[o..], entry); j < |ns| - o ==> ns[o..][j].key - ns[o..][j].range <= entry
  {
    NodeFacts(ns);
    TrimmedTail(ns, o, entry);
    var j := LowerBound(ns, entry);
    if j < |ns| {
      assert ns[j - 1].key <= entry && ns[o..][j - o] == ns[j];
    }
  }

  /** What the last steps of a reset find behind the front. */
  lemma RestBehind<T>(ns: seq<Node<T>>, position: nat, range: nat)
    requires WellFormed(ns) && UpperBound(ns, position) < |ns|
    requires range == 0 ==> BottomVisible(ns[UpperBound(ns, position)], position) > 0
    ensures 1 <= UpperBound(ns, position) <= LowerBound(ns, position + range)
    ensures range == 0 ==> DropKey(Trimmed(ns, position), position) == Trimmed(ns, position)
  {
    NodeFacts(ns);
    var o := UpperBound(ns, position);
    KeysBelow(ns, o - 1);
  }

  lemma ResetTail<T>(ns: seq<Node<T>>, position: nat, range: nat)
    requires WellFormed(ns) && UpperBound(ns, position) < |ns|
    requires range == 0 ==> BottomVisible(ns[UpperBound(ns, position)], position) > 0
    ensures var tail := ns[UpperBound(ns, position)..];
            var rest := Trimmed(tail, position + range);
            var j := LowerBound(tail, position + range);
            && (j < |tail| ==> tail[j].key - tail[j].range <= position + range)
            && (range == 0 ==> DropKey(rest, position) == rest)
            && DropKey(rest, position + range) == Back(ns, position + range)
  {
    hide Trimmed, Tiled, LowerFrom;
    RestBehind(ns, position, range);
    CutStart(ns, UpperBound(ns, position), position + range);
    TrimmedTail(ns, UpperBound(ns, position), position + range);
  }

  // ----- what a reset means for the sequence -----

  /** A reset is answered correctly whatever the replacing rows: it is not an edit in place,
      or one that starts where an unshifted block starts. */
  predicate SafeReplace<T>(ns: seq<Node<T>>, position: nat, range: nat, replace: Option<seq<T>>) {
    InPlace(ns, position, range, replace) ==>
      var n := ns[UpperBound(ns, position)];
      BottomVisible(n, position) == 0 && n.offset == 0
  }

  ghost predicate Overwrites<T>(ns: seq<Node<T>>, position: nat, rows: seq<Option<T>>, now: seq<Node<T>>)
    requires WellFormed(ns)
  {
    WellFormed(now) && RowsOf(now) == Overwrite(RowsOf(ns), position, rows)
  }

  /** Swapping one node for another of the same extent. */
  lemma SwapNode<T>(ns: seq<Node<T>>, o: nat, n: Node<T>)
    requires WellFormed(ns) && 1 <= o < |ns| && n.key == ns[o].key && n.range == ns[o].range && n.Fits()
    ensures WellFormed(ns[o := n])
    ensures var s := RowsOf(ns);
            0 <= n.key - n.range <= n.key <= |s| && RowsOf(ns[o := n]) == s[..n.key - n.range] + n.Rows() + s[n.key..]
  {
    hide Tiled, Flat;
    NodeFacts(ns);
    Disassemble(ns, o);
    Disassemble(ns, o + 1);
    SingleTile(n, ns[o - 1].key);
    Assemble(ns[..o], [n], n.key);
    assert ns[o := n] == (ns[..o] + [n]) + ns[o + 1..];
    Assemble(ns[..o] + [n], ns[o + 1..], Size(ns));
  }

  lemma InPlaceRows<T>(ns: seq<Node<T>>, position: nat, rows: seq<T>)
    requires WellFormed(ns) && InPlace(ns, position, |rows|, Some(rows))
    requires BottomVisible(ns[UpperBound(ns, position)], position) == 0
    ensures var o := UpperBound(ns, position);
            var w := Written(ns[o], 0, rows);
            var s := RowsOf(ns);
            var now := ResetOutcome(ns, position, |rows|, Some(rows));
            && 0 < |rows| < ns[o].range && w.Fits() && |ns[o].block| == |w.block| && w.range == ns[o].range
            && position < ns[o].key <= |s|
            && WellFormed(now) && RowsOf(now) == s[..position] + w.Rows() + s[ns[o].key..]
            && s[position..ns[o].key] == ns[o].Rows()
  {
    NodeFacts(ns);
    var o := UpperBound(ns, position);
    SwapNode(ns, o, Written(ns[o], 0, rows));
    SwapNode(ns, o, ns[o]);
    assert ns[o := ns[o]] == ns;
  }

  lemma ResetIsSafe<T>(ns: seq<Node<T>>, position: nat, range: nat, replace: Option<seq<T>>)
    requires WellFormed(ns) && SafeReplace(ns, position, range, replace)
    requires replace.Some? ==> range <= |replace.value|
    requires InPlace(ns, position, range, replace) ==> |replace.value| == range
    ensures Overwrites(ns, position, FreshRows(range, if replace.Some? then replace.value else []),
                       ResetOutcome(ns, position, range, replace))
  {
    if InPlace(ns, position, range, replace) {
      InPlaceRows(ns, position, replace.value);
      InPlaceFromStart(ns, position, replace.value);
    } else {
      ResetRows(ns, position, range, if replace.Some? then replace.value else []);
    }
  }

  lemma InPlaceFromStart<T>(ns: seq<Node<T>>, position: nat, rows: seq<T>)
    requires WellFormed(ns) && InPlace(ns, position, |rows|, Some(rows))
             && SafeReplace(ns, position, |rows|, Some(rows))
    ensures var o := UpperBound(ns, position);
            var s := RowsOf(ns);
            position <= |s| && ns[o].key <= |s| &&
            s[..position] + Written(ns[o], 0, rows).Rows() + s[ns[o].key..] == Overwrite(s, position, Somes(rows))
  {
    hide Tiled, Flat, RowsOf;
    InPlaceRows(ns, position, rows);
    var o := UpperBound(ns, position);
    var s := RowsOf(ns);
    var n, w := ns[o], Written(ns[o], 0, rows);
    CutSlice(s, position, n.key, |rows|);
    FrontWritten(n, rows);
    OverwriteCut(s, position, Somes(rows), n.Rows()[|rows|..], s[n.key..]);
  }

  lemma CutSlice<R>(s: seq<R>, from: nat, to: nat, count: nat)
    requires from + count <= to <= |s|
    ensures s[from + count..] == s[from..to][count..] + s[to..]
  {
  }

  lemma FrontWritten<T>(n: Node<T>, rows: seq<T>)
    requires |rows| <= n.range && n.Fits() && n.block != [] && n.offset == 0
    ensures Written(n, 0, rows).Rows() == Somes(rows) + n.Rows()[|rows|..]
  {
  }

  lemma OverwriteCut<T>(s: seq<Option<T>>, position: nat, rows: seq<Option<T>>,
                        rest: seq<Option<T>>, back: seq<Option<T>>)
    requires position + |rows| <= |s| && s[position + |rows|..] == rest + back
    ensures s[..position] + (rows + rest) + back == Overwrite(s, position, rows)
  {
  }

  /** Replacing a block of `range` rows at `position` works for every block exactly when it is safe. */
  lemma ReplaceWorksExactly<T>(ns: seq<Node<T>>, position: nat, range: nat, one: T, other: T)
    requires WellFormed(ns) && one != other
    ensures SafeReplace(ns, position, range, Some(seq(range, _ => one)))
            <==> forall rows: seq<T> | |rows| == range ::
                   Overwrites(ns, position, Somes(rows), ResetOutcome(ns, position, range, Some(rows)))
  {
    var ones := seq(range, _ => one);
    if SafeReplace(ns, position, range, Some(ones)) {
      forall rows: seq<T> | |rows| == range
        ensures Overwrites(ns, position, Somes(rows), ResetOutcome(ns, position, range, Some(rows)))
      {
        ResetIsSafe(ns, position, range, Some(rows));
      }
    } else {
      var rows := SpoiltRows(ns, position, range, one, other);
    }
  }

  /** Rows that come out wrong where a replacement is not safe. */
  lemma SpoiltRows<T>(ns: seq<Node<T>>, position: nat, range: nat, one: T, other: T) returns (rows: seq<T>)
    requires WellFormed(ns) && one != other
    requires !SafeReplace(ns, position, range, Some(seq(range, _ => one)))
    ensures |rows| == range
    ensures !Overwrites(ns, position, Somes(rows), ResetOutcome(ns, position, range, Some(rows)))
  {
    hide Tiled, RowsOf;
    NodeFacts(ns);
    var o := UpperBound(ns, position);
    assert ns[o - 1].key <= position;
    var n := ns[o];
    var bottom := BottomVisible(n, position);
    rows := seq(range, _ => one);
    if bottom > 0 {
      StillCovered(ns, position, rows);
    } else {
      var first := if n.offset >= range && n.block[n.offset] == one then other else one;
      rows := seq(range, i => if i == 0 then first else if first == one then other else one);
      InPlaceRows(ns, position, rows);
      FirstRowMissed(n, rows, one, other);
      FirstRowShown(RowsOf(ns), position, n.key, Written(n, 0, rows), rows);
    }
  }

  /** Rows written to the start of a block show in its first row only where its offset leads to the first of them. */
  lemma FirstRowMissed<T>(n: Node<T>, rows: seq<T>, one: T, other: T)
    requires n.offset > 0 && n.offset < |n.block| && 0 < |rows| <= |n.block| && one != other
    requires rows[0] == if n.offset >= |rows| && n.block[n.offset] == one then other else one
    requires forall i :: 0 < i < |rows| ==> rows[i] == if rows[0] == one then other else one
    ensures n.offset < |Written(n, 0, rows).block| && Written(n, 0, rows).block[n.offset] != rows[0]
  {
  }

  lemma FirstRowShown<T>(s: seq<Option<T>>, position: nat, end: nat, w: Node<T>, rows: seq<T>)
    requires position < end <= |s| && w.range > 0 && w.offset < |w.block| && rows != []
    requires w.block[w.offset] != rows[0]
    ensures s[..position] + w.Rows() + s[end..] != Overwrite(s, position, Somes(rows))
  {
    assert (s[..position] + w.Rows() + s[end..])[position] == w.Rows()[0] == Some(w.block[w.offset]);
    assert Overwrite(s, position, Somes(rows))[position] == Some(rows[0]);
  }

  /** An edit strictly inside a block leaves a node that reaches back over the one before it. */
  lemma StillCovered<T>(ns: seq<Node<T>>, position: nat, rows: seq<T>)
    requires WellFormed(ns) && InPlace(ns, position, |rows|, Some(rows))
    requires BottomVisible(ns[UpperBound(ns, position)], position) > 0
    ensures !WellFormed(ResetOutcome(ns, position, |rows|, Some(rows)))
  {
    NodeFacts(ns);
    var o := UpperBound(ns, position);
    var now := ResetOutcome(ns, position, |rows|, Some(rows));
    assert now[o].key == position && now[o + 1].key == ns[o].key && now[o + 1].range == ns[o].range;
    Overlapping(now, o + 1);
  }

  // ----- looking up and shifting nodes -----

  lemma RowAt<T>(ns: seq<Node<T>>, position: nat)
    requires WellFormed(ns)
    ensures var o := UpperBound(ns, position);
            if o < |ns| then
              && 1 <= o && position < |RowsOf(ns)| && 0 <= BottomVisible(ns[o], position) < ns[o].range
              && RowsOf(ns)[position] == ns[o].Rows()[BottomVisible(ns[o], position)]
            else |RowsOf(ns)| <= position
  {
    NodeFacts(ns);
    var o := UpperBound(ns, position);
    if o < |ns| {
      assert ns[o - 1].key <= position;
      Disassemble(ns, o);
      assert ns[o..][0] == ns[o];
    }
  }

  lemma WriteRow<T>(ns: seq<Node<T>>, o: nat, position: nat, value: T)
    requires WellFormed(ns) && o == UpperBound(ns, position) < |ns| && ns[o].block != []
    ensures 1 <= o && 0 <= BottomVisible(ns[o], position) < ns[o].range && ns[o].Fits()
    ensures var n := ns[o];
            var w := n.(block := n.block[n.offset + BottomVisible(n, position) := value]);
            && WellFormed(ns[o := w])
            && RowsOf(ns[o := w]) == Overwrite(RowsOf(ns), position, [Some(value)])
  {
    hide Tiled, Flat, RowsOf, LowerFrom;
    NodeFacts(ns);
    RowAt(ns, position);
    var n := ns[o];
    var bottom := BottomVisible(n, position);
    var w := n.(block := n.block[n.offset + bottom := value]);
    SwapNode(ns, o, w);
    SwapNode(ns, o, n);
    assert ns[o := n] == ns;
    assert w.Rows() == n.Rows()[bottom := Some(value)];
    var s := RowsOf(ns);
    assert s[..position] == s[..n.key - n.range] + n.Rows()[..bottom];
    assert s[position + 1..] == n.Rows()[bottom + 1..] + s[n.key..];
  }

  /** One step of the loop that shifts the nodes behind an insertion, from the last one down. */
  lemma ShiftedUp<T>(w: seq<Node<T>>, ri: nat, range: nat)
    requires WellFormed(w) && 1 <= ri < |w| && range > 0
    ensures var ns := Put(w[..ri + 1] + Shift(w[ri + 1..], range), w[ri].(key := w[ri].key + range));
            ri < |ns| && Erase(ns, ri) == w[..ri] + Shift(w[ri..], range)
  {
    NodeFacts(w);
    KeysBelow(w, ri);
    var n := w[ri].(key := w[ri].key + range);
    var tail := Shift(w[ri + 1..], range);
    PutBetween(w[..ri + 1], n, tail);
    ErasedUp(w[..ri + 1], n, tail);
    assert Shift(w[ri..], range) == [n] + tail;
    assert w[..ri + 1][..ri] == w[..ri];
  }

  lemma ErasedUp<T>(front: seq<Node<T>>, n: Node<T>, tail: seq<Node<T>>)
    requires front != []
    ensures Erase(front + [n] + tail, |front| - 1) == front[..|front| - 1] + ([n] + tail)
  {
  }

  /** The same step for an empty insertion only loses the node. */
  lemma ShiftedSame<T>(w: seq<Node<T>>, ri: nat)
    requires WellFormed(w) && ri < |w|
    ensures Put(w[..ri + 1], w[ri]) == w[..ri + 1] && Erase(w[..ri + 1], ri) == w[..ri]
  {
    KeysBelow(w, ri);
    assert w[..ri + 1] == w[..ri] + [w[ri]] + [];
    PutOver(w[..ri], w[ri], w[ri], []);
  }

  /** Either kind of step, as the loop takes it. */
  lemma ShiftedStep<T>(w: seq<Node<T>>, ri: nat, range: nat)
    requires WellFormed(w) && 1 <= ri < |w|
    ensures var now := w[..ri + 1] + (if range > 0 then Shift(w[ri + 1..], range) else []);
            && now[ri] == w[ri]
            && ri < |Put(now, w[ri].(key := w[ri].key + range))|
            && Erase(Put(now, w[ri].(key := w[ri].key + range)), ri)
               == w[..ri] + (if range > 0 then Shift(w[ri..], range) else [])
  {
    hide Tiled, Put, Erase, Shift;
    if range > 0 {
      ShiftedUp(w, ri, range);
    } else {
      ShiftedSame(w, ri);
      assert w[..ri + 1] + [] == w[..ri + 1] && w[..ri] + [] == w[..ri];
      assert w[ri].(key := w[ri].key + range) == w[ri];
    }
  }

  lemma PaddedTo<T>(s: seq<Option<T>>, w: seq<Node<T>>, rend: nat, position: nat)
    requires WellFormed(w) && rend < |w| && w[rend].key == position
    requires RowsOf(w) == s || RowsOf(w) == Overwrite(s, position, [])
    ensures RowsOf(w) == Pad(s, position)
  {
    NodeFacts(w);
  }

  lemma InsertedRows<T>(w: seq<Node<T>>, rend: nat, range: nat, block: seq<T>)
    requires WellFormed(w) && rend < |w| && range > 0
    requires block == [] || |block| == range
    ensures var position := w[rend].key;
            var now := w[..rend + 1] + [Node(position + range, range, 0, block)] + Shift(w[rend + 1..], range);
            position >= 0 && WellFormed(now) && RowsOf(now) == InsertRows(RowsOf(w), position, FreshRows(range, block))
  {
    hide Tiled, Flat, Shift;
    var position := w[rend].key;
    Disassemble(w, rend + 1);
    AppendFresh(w[..rend + 1], position, range, block);
    ShiftTiled(w[rend + 1..], range, position, Size(w));
    Assemble(w[..rend + 1] + [Node(position + range, range, 0, block)], Shift(w[rend + 1..], range), Size(w) + range);
  }

  lemma InsertPut<T>(w: seq<Node<T>>, rend: nat, range: nat, block: seq<T>)
    requires WellFormed(w) && rend < |w| && range > 0
    ensures var n := Node(w[rend].key + range, range, 0, block);
            Put(w[..rend + 1] + Shift(w[rend + 1..], range), n) == w[..rend + 1] + [n] + Shift(w[rend + 1..], range)
  {
    NodeFacts(w);
    KeysBelow(w, rend);
    PutBetween(w[..rend + 1], Node(w[rend].key + range, range, 0, block), Shift(w[rend + 1..], range));
  }

  /** An empty node stored over the last one leaves a well-formed list only at the very start. */
  lemma EmptyPut<T>(w: seq<Node<T>>, rend: nat)
    requires WellFormed(w) && rend < |w|
    ensures var now := Put(w[..rend + 1], Node(w[rend].key, 0, 0, []));
            && (w[rend].key == 0 ==> WellFormed(now) && RowsOf(now) == [])
            && (w[rend].key != 0 ==> !WellFormed(now))
  {
    NodeFacts(w);
    KeysBelow(w, rend);
    var n: Node<T> := Node(w[rend].key, 0, 0, []);
    assert w[..rend + 1] == w[..rend] + [w[rend]] + [];
    PutOver(w[..rend], n, w[rend], []);
    var now := w[..rend] + [n] + [];
    if rend > 0 {
      EmptyTile(now, rend);
    } else {
      assert now == [Sentinel()];
    }
  }

  lemma InsertOutcome<T>(s: seq<Option<T>>, w: seq<Node<T>>, rend: nat, position: nat, range: nat, block: seq<T>)
    requires WellFormed(w) && rend < |w| && w[rend].key == position && RowsOf(w) == Pad(s, position)
    requires block == [] || |block| == range
    ensures var ns := w[..rend + 1] + (if range > 0 then Shift(w[rend + 1..], range) else []);
            var now := Put(ns, Node(position + range, range, 0, block));
            range > 0 || (position == 0 && s == []) <==>
            WellFormed(now) && RowsOf(now) == InsertRows(s, position, FreshRows(range, block))
  {
    hide WellFormed, Tiled, Put, RowsOf;
    if range > 0 {
      InsertPut(w, rend, range, block);
      InsertedRows(w, rend, range, block);
    } else {
      assert w[..rend + 1] + [] == w[..rend + 1];
      EmptyPut(w, rend);
    }
  }

  lemma EmptyTile<T>(ns: seq<Node<T>>, o: nat)
    requires 1 <= o < |ns| && ns[o].range == 0
    ensures !WellFormed(ns)
  {
    if WellFormed(ns) {
      NodeFacts(ns);
    }
  }

  lemma AppendOutcome<T>(ns: seq<Node<T>>, block: seq<T>)
    requires WellFormed(ns) && Size(ns) >= 0
    ensures var now := Put(ns, Node(Size(ns) + |block|, |block|, 0, block));
            block != [] || RowsOf(ns) == [] <==> WellFormed(now) && RowsOf(now) == RowsOf(ns) + Somes(block)
  {
    hide Tiled, Flat, Put, LowerFrom;
    var n := Node(Size(ns) + |block|, |block|, 0, block);
    if block != [] {
      InsertPut(ns, |ns| - 1, |block|, block);
      assert ns[..|ns|] == ns && ns + [] == ns && ns + [n] + [] == ns + [n];
      AppendFresh(ns, Size(ns), |block|, block);
    } else {
      assert ns[..|ns|] == ns && block == [];
      EmptyPut(ns, |ns| - 1);
    }
  }

  /** The list while the nodes behind a removed one are shifted, before index `k` of the full list is. */
  function Closing<T>(w: seq<Node<T>>, at: nat, k: nat, range: nat): (ns: seq<Node<T>>)
    requires at < k <= |w|
    ensures |ns| == (if range > 0 then k - 1 else at) + |w| - k
  {
    (if range > 0 then w[..at] + Shift(w[at + 1..k], 0 - range) else w[..at]) + w[k..]
  }

  lemma ClosingFront<T>(w: seq<Node<T>>, at: nat, k: nat)
    requires WellFormed(w) && 1 <= at < k < |w|
    ensures var range: int := w[at].range;
            var front := w[..at] + Shift(w[at + 1..k], 0 - range);
            forall i :: 0 <= i < |front| ==> front[i].key < w[k].key - range
  {
    NodeFacts(w);
    KeysBelow(w, k);
    KeysBelow(w, at - 1);
    var range: int := w[at].range;
    var front := w[..at] + Shift(w[at + 1..k], 0 - range);
    forall i | 0 <= i < |front| ensures front[i].key < w[k].key - range {
      if i >= at {
        assert front[i].key == w[i + 1].key - range;
      }
    }
  }

  /** One step of the loop that shifts the nodes behind a removal, from the first one up. */
  lemma ShiftedDown<T>(w: seq<Node<T>>, at: nat, k: nat)
    requires WellFormed(w) && 1 <= at < k < |w| && w[at].range > 0
    ensures var range: nat := w[at].range;
            var now := Closing(w, at, k, range);
            var n := w[k].(key := w[k].key - range);
            && now[k - 1] == w[k]
            && |Put(now, n)| == |now| + 1 && Erase(Put(now, n), k) == Closing(w, at, k + 1, range)
  {
    hide WellFormed, Tiled, Put, Erase, LowerFrom;
    var range: int := w[at].range;
    var n := w[k].(key := w[k].key - range);
    var front := w[..at] + Shift(w[at + 1..k], 0 - range);
    ClosingFront(w, at, k);
    PutBetween(front, n, w[k..]);
    assert Shift(w[at + 1..k + 1], 0 - range) == Shift(w[at + 1..k], 0 - range) + [n];
    ErasedDown(front, n, w[k..]);
    assert w[k..][1..] == w[k + 1..];
  }

  lemma ErasedDown<T>(front: seq<Node<T>>, n: Node<T>, tail: seq<Node<T>>)
    requires tail != []
    ensures Erase(front + [n] + tail, |front| + 1) == front + [n] + tail[1..]
  {
  }

  lemma ShiftedDownSame<T>(w: seq<Node<T>>, at: nat, k: nat)
    requires WellFormed(w) && at < k < |w|
    ensures var now := Closing(w, at, k, 0);
            now[at] == w[k] && Put(now, w[k]) == now && Erase(now, at) == Closing(w, at, k + 1, 0)
  {
    KeysBelow(w, k);
    assert w[..at] + w[k..] == w[..at] + [w[k]] + w[k + 1..];
    PutOver(w[..at], w[k], w[k], w[k + 1..]);
  }

  /** Either kind of step, as the loop takes it. */
  lemma ClosingStep<T>(w: seq<Node<T>>, at: nat, k: nat, range: nat)
    requires WellFormed(w) && at < k < |w|
    requires range > 0 ==> at >= 1 && w[at].range == range
    ensures var now := Closing(w, at, k, range);
            var ri := if range > 0 then k - 1 else at;
            && ri < |now| && now[ri] == w[k]
            && var put := Put(now, w[k].(key := w[k].key - range));
            && |put| == |now| + (if range > 0 then 1 else 0)
            && Erase(put, if range > 0 then ri + 1 else ri) == Closing(w, at, k + 1, range)
  {
    hide WellFormed, Tiled, Put, Erase, Closing, Shift;
    if range > 0 {
      ShiftedDown(w, at, k);
    } else {
      ShiftedDownSame(w, at, k);
      assert w[k].(key := w[k].key - range) == w[k];
    }
  }

  /** Where the fresh node of a reset is. */
  lemma FreshAt<T>(was: seq<Node<T>>, at: nat, position: nat, range: nat, block: seq<T>)
    requires WellFormed(was) && WellFormed(ResetNodes(was, position, range, block)) && range > 0
    requires at < |ResetNodes(was, position, range, block)|
             && ResetNodes(was, position, range, block)[at].key == position + range
    ensures var w := ResetNodes(was, position, range, block);
            at == |Front(was, position)| && w[at] == Node(position + range, range, 0, block)
            && w[..at] == Front(was, position) && w[at + 1..] == Back(was, position + range)
  {
    var w := ResetNodes(was, position, range, block);
    var front := Front(was, position);
    assert w[|front|] == Node(position + range, range, 0, block);
    if at < |front| {
      KeysBelow(w, |front|);
    } else if at > |front| {
      KeysBelow(w, at);
    }
  }

  lemma CloseUp<T>(s: seq<Option<T>>, front: seq<Node<T>>, back: seq<Node<T>>, position: nat, range: nat)
    requires IsFront(s, front, position) && IsBack(s, back, position + range) && range > 0
    ensures var now := front + Shift(back, 0 - range);
            WellFormed(now) && RowsOf(now) == RemoveRows(s, position, range)
  {
    hide Tiled, Flat, RowsOf, Shift;
    if position + range <= |s| {
      ShiftTiled(back, 0 - range, position + range, |s|);
      Assemble(front, Shift(back, 0 - range), |s| - range);
    } else {
      assert front + Shift(back, 0 - range) == front;
    }
  }

  lemma RemovedRows<T>(was: seq<Node<T>>, position: nat, range: nat)
    requires WellFormed(was) && range > 0
    ensures var now := Front(was, position) + Shift(Back(was, position + range), 0 - range);
            WellFormed(now) && RowsOf(now) == RemoveRows(RowsOf(was), position, range)
  {
    hide Front, Back, Tiled, Flat, RowsOf, Shift;
    FrontRows(was, position);
    BackRows(was, position + range);
    var s, front, back := RowsOf(was), Front(was, position), Back(was, position + range);
    assert IsFront(s, front, position) && IsBack(s, back, position + range);
    CloseUp(s, front, back, position, range);
  }

  lemma PaddingRemoved<T>(was: seq<Node<T>>, at: nat, position: nat)
    requires WellFormed(was) && Size(was) < position && WellFormed(ResetNodes(was, position, 0, []))
    requires at < |ResetNodes(was, position, 0, [])| && ResetNodes(was, position, 0, [])[at].key == position
    ensures ResetNodes(was, position, 0, [])[..at] == was
  {
    hide Tiled, Flat, RowsOf, LowerFrom, Trimmed, DropKey;
    NodeFacts(was);
    BackRows(was, position);
    var w := was + [Node(position, position - Size(was), 0, [])];
    assert Front(was, position) == w;
    assert w + [] + [] == w;
    assert forall i :: 0 <= i < |was| ==> w[i].key == was[i].key < position;
  }

  lemma RemovedNothing<T>(was: seq<Node<T>>, w: seq<Node<T>>, at: nat, position: nat)
    requires WellFormed(was) && WellFormed(w) && at < |w| && w[at].key == position
    requires w == ResetNodes(was, position, 0, [])
    ensures position > Size(was) <==> WellFormed(w[..at]) && RowsOf(w[..at]) == RowsOf(was)
  {
    hide Tiled, Flat, ResetNodes, LowerFrom;
    NodeFacts(w);
    if position > Size(was) {
      PaddingRemoved(was, at, position);
    } else if at > 0 {
      Disassemble(w, at);
    }
  }

  lemma ClosingStart<T>(w: seq<Node<T>>, at: nat, range: nat)
    requires at < |w|
    ensures Erase(w, at) == Closing(w, at, at + 1, range)
  {
  }

  lemma ClosingEnd<T>(was: seq<Node<T>>, w: seq<Node<T>>, at: nat, position: nat, range: nat)
    requires WellFormed(was) && WellFormed(w) && at < |w| && w[at].key == position + range && range > 0
    requires w == ResetNodes(was, position, range, [])
    ensures Closing(w, at, |w|, range) == Front(was, position) + Shift(Back(was, position + range), 0 - range)
  {
    hide Front, Back, Closing, Tiled, Flat, Shift;
    FreshAt(was, at, position, range, []);
    ClosingAll(w, at, range);
  }

  lemma ClosingAll<T>(w: seq<Node<T>>, at: nat, range: nat)
    requires at < |w|
    ensures Closing(w, at, |w|, range) == w[..at] + (if range > 0 then Shift(w[at + 1..], 0 - range) else [])
  {
    assert w[at + 1..|w|] == w[at + 1..];
  }

  lemma RemoveOutcome<T>(was: seq<Node<T>>, w: seq<Node<T>>, at: nat, position: nat, range: nat)
    requires WellFormed(was) && WellFormed(w) && at < |w| && w[at].key == position + range
    requires w == ResetNodes(was, position, range, [])
    ensures var now := Closing(w, at, |w|, range);
            range > 0 || position > Size(was) <==>
            WellFormed(now) && RowsOf(now) == RemoveRows(RowsOf(was), position, range)
  {
    hide Closing, Tiled, Flat, RowsOf, ResetNodes;
    if range > 0 {
      ClosingEnd(was, w, at, position, range);
      RemovedRows(was, position, range);
    } else {
      ClosingAll(w, at, range);
      assert w[..at] + [] == w[..at];
      RemovedNothing(was, w, at, position);
    }
  }
}
