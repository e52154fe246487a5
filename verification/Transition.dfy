/**
 The smooth transition: turning the old rows of a model into new ones row by row while
 announcing removals, insertions and changed cells, so that a listener who follows the
 announcements always holds the rows the model would give it.
 */
module Transition {
  import opened Arithmetic

  type Row = seq<string>
  type Identity = seq<string>

  // ----- announcements and what a listener makes of them -----

  datatype Change =
    | Removed(first: int, last: int)
    | Inserted(first: int, last: int)
    | Changed(top: int, left: int, bottom: int, right: int)

  /** Some changes signalled together, the rows readable while they are signalled, and those readable
      once the cursors have moved on. */
  datatype Announcement = Announcement(changes: seq<Change>, during: seq<Row>, readable: seq<Row>)

  function Reread(row: Row, readable: Row, left: int, right: int): (r: Row)
    ensures |r| == |row|
  {
    seq(|row|, c requires 0 <= c < |row| => if left <= c <= right && c < |readable| then readable[c] else row[c])
  }

  /** What a listener who holds `rows` holds after a change, reading from the model only what the change names. */
  function Heard(rows: seq<Row>, change: Change, readable: seq<Row>): seq<Row> {
    match change
    case Removed(first, last) =>
      if 0 <= first <= last < |rows| then rows[..first] + rows[last + 1..] else rows
    case Inserted(first, last) =>
      if 0 <= first <= |rows| && first <= last < |readable| then
          rows[..first] + readable[first..last + 1] + rows[first..]
      else rows
    case Changed(top, left, bottom, right) =>
      seq(|rows|, i requires 0 <= i < |rows| =>
        if top <= i <= bottom && i < |readable| then Reread(rows[i], readable[i], left, right) else rows[i])
  }

  function HeardAll(rows: seq<Row>, changes: seq<Change>, readable: seq<Row>): seq<Row> {
    if changes == [] then rows
    else Heard(HeardAll(rows, changes[..|changes| - 1], readable), changes[|changes| - 1], readable)
  }

  /** What a listener who held `rows` at the start holds after all the announcements. */
  function Replay(rows: seq<Row>, log: seq<Announcement>): seq<Row> {
    if log == [] then rows
    else
      var last := log[|log| - 1];
      HeardAll(Replay(rows, log[..|log| - 1]), last.changes, last.readable)
  }

  /** The rows readable after the announcements. */
  function Readable(rows: seq<Row>, log: seq<Announcement>): seq<Row> {
    if log == [] then rows else log[|log| - 1].readable
  }

  ghost predicate InBounds(change: Change, before: seq<Row>, after: seq<Row>) {
    match change
    case Removed(first, last) => 0 <= first <= last < |before| && |after| == |before| - (last - first + 1)
    case Inserted(first, last) => 0 <= first <= |before| && first <= last < |after| == |before| + (last - first + 1)
    case Changed(top, left, bottom, right) =>
      && 0 <= top <= bottom < |before| == |after| && 0 <= left <= right
      && (forall i :: top <= i <= bottom ==>
            |before[i]| == |after[i]| && right < |before[i]|
            && (forall c :: left <= c <= right ==> before[i][c] != after[i][c]))
  }

  /** One announcement between what was readable before it and what is readable after it: the listener
      ends up with the readable rows, the indices make sense, only cells that differ are named, and
      the new cells are not readable yet while their change is being signalled. */
  ghost predicate Honest(before: seq<Row>, a: Announcement) {
    && HeardAll(before, a.changes, a.readable) == a.readable
    && (forall change <- a.changes :: InBounds(change, before, a.readable))
    && (forall change <- a.changes :: a.during == if change.Changed? then before else a.readable)
  }

  ghost predicate AllHonest(rows: seq<Row>, log: seq<Announcement>) {
    log != [] ==>
      var front := log[..|log| - 1];
      AllHonest(rows, front) && Honest(Readable(rows, front), log[|log| - 1])
  }

  /** A listener is in step with the model after every announcement of an honest log. */
  lemma {:induction false} InStep(rows: seq<Row>, log: seq<Announcement>, i: nat)
    requires AllHonest(rows, log) && i <= |log|
    ensures Replay(rows, log[..i]) == Readable(rows, log[..i])
  {
    if i < |log| {
      var front := log[..|log| - 1];
      assert log[..i] == front[..i];
      InStep(rows, front, i);
    } else if log != [] {
      var front := log[..|log| - 1];
      assert log[..i] == log && front[..i - 1] == front;
      InStep(rows, front, i - 1);
    }
  }

  lemma {:induction false} HonestAt(rows: seq<Row>, log: seq<Announcement>, i: nat)
    requires AllHonest(rows, log) && i < |log|
    ensures Honest(Readable(rows, log[..i]), log[i])
  {
    hide Honest;
    var front := log[..|log| - 1];
    if i < |front| {
      HonestAt(rows, front, i);
      assert front[..i] == log[..i];
    } else {
      assert front == log[..i];
    }
  }

  /** In the log of a whole run, a listener who reads a cell while its change is being signalled gets what the log has
      told so far, and not what the cell is changed to. */
  lemma StaleWhileSignalled(rows: seq<Row>, log: seq<Announcement>, n: nat, change: Change, i: int, c: int)
    requires AllHonest(rows, log) && n < |log| && change in log[n].changes && change.Changed?
    requires change.top <= i <= change.bottom && change.left <= c <= change.right
    ensures var told := Replay(rows, log[..n]);
            && 0 <= i < |log[n].during| == |told| == |log[n].readable|
            && 0 <= c < |log[n].during[i]| == |told[i]| == |log[n].readable[i]|
            && log[n].during[i][c] == told[i][c] != log[n].readable[i][c]
  {
    HonestAt(rows, log, n);
    InStep(rows, log, n);
    assert InBounds(change, Readable(rows, log[..n]), log[n].readable);
  }

  lemma LogOn(rows: seq<Row>, log: seq<Announcement>, a: Announcement)
    requires AllHonest(rows, log) && Honest(Readable(rows, log), a)
    ensures AllHonest(rows, log + [a]) && Readable(rows, log + [a]) == a.readable
  {
    hide Honest;
    assert (log + [a])[..|log|] == log;
  }

  // ----- the three kinds of announcement -----

  lemma HonestRemoval(before: seq<Row>, after: seq<Row>, first: int, last: int)
    requires 0 <= first <= last < |before| && after == before[..first] + before[last + 1..]
    ensures Honest(before, Announcement([Removed(first, last)], after, after))
  {
    HeardOne(before, Removed(first, last), after);
  }

  lemma HonestInsertion(before: seq<Row>, after: seq<Row>, first: int, last: int)
    requires 0 <= first <= |before| && first <= last < |after|
    requires after == before[..first] + after[first..last + 1] + before[first..]
    ensures Honest(before, Announcement([Inserted(first, last)], after, after))
  {
    HeardOne(before, Inserted(first, last), after);
  }

  lemma HeardOne(rows: seq<Row>, change: Change, readable: seq<Row>)
    ensures HeardAll(rows, [change], readable) == Heard(rows, change, readable)
  {
    assert [change][..0] == [];
    assert HeardAll(rows, [], readable) == rows;
  }

  ghost predicate Differs(lhs: Row, rhs: Row, mask: seq<bool>) {
    |lhs| == |rhs| == |mask| && forall c :: 0 <= c < |mask| ==> (mask[c] <==> lhs[c] != rhs[c])
  }

  /** `changes` name the rows top..bottom and no cells but those `mask` marks. */
  ghost predicate WithinMask(changes: seq<Change>, mask: seq<bool>, top: int, bottom: int) {
    forall change <- changes ::
      && change.Changed? && change.top == top && change.bottom == bottom
      && 0 <= change.left <= change.right < |mask|
      && forall c :: change.left <= c <= change.right ==> mask[c]
  }

  ghost predicate Named(changes: seq<Change>, c: int) {
    exists change <- changes :: change.Changed? && change.left <= c <= change.right
  }

  lemma {:induction false} HeardCells(rows: seq<Row>, changes: seq<Change>, readable: seq<Row>, mask: seq<bool>,
      top: int, bottom: int)
    requires WithinMask(changes, mask, top, bottom) && 0 <= top <= bottom < |rows| == |readable|
    requires forall i :: top <= i <= bottom ==> |rows[i]| == |readable[i]| == |mask|
    ensures var heard := HeardAll(rows, changes, readable);
            && |heard| == |rows|
            && (forall i :: 0 <= i < |rows| && !(top <= i <= bottom) ==> heard[i] == rows[i])
            && (forall i :: top <= i <= bottom ==> |heard[i]| == |mask|)
            && (forall i, c :: top <= i <= bottom && 0 <= c < |mask| ==>
                  heard[i][c] == if Named(changes, c) then readable[i][c] else rows[i][c])
  {
    if changes != [] {
      var front, last := changes[..|changes| - 1], changes[|changes| - 1];
      assert changes == front + [last];
      HeardCells(rows, front, readable, mask, top, bottom);
      var half := HeardAll(rows, front, readable);
      var heard := Heard(half, last, readable);
      assert last in changes && last.Changed?;
      assert |heard| == |half| && forall i :: 0 <= i < |half| ==> |heard[i]| == |half[i]|;
      forall i, c | top <= i <= bottom && 0 <= c < |mask|
        ensures heard[i][c] == if Named(changes, c) then readable[i][c] else rows[i][c]
      {
        assert Named(changes, c) <==> Named(front, c) || last.left <= c <= last.right;
      }
    }
  }

  lemma HonestChange(
    before: seq<Row>, after: seq<Row>, changes: seq<Change>, mask: seq<bool>, top: int, bottom: int)
    requires WithinMask(changes, mask, top, bottom) && 0 <= top <= bottom < |before| == |after|
    requires forall c :: 0 <= c < |mask| && mask[c] ==> Named(changes, c)
    requires forall i :: 0 <= i < |before| && !(top <= i <= bottom) ==> before[i] == after[i]
    requires forall i :: top <= i <= bottom ==> Differs(before[i], after[i], mask)
    ensures Honest(before, Announcement(changes, before, after))
  {
    HeardCells(before, changes, after, mask, top, bottom);
    var heard := HeardAll(before, changes, after);
    forall i | 0 <= i < |before| ensures heard[i] == after[i] {
      if top <= i <= bottom {
        assert Differs(before[i], after[i], mask);
        forall c | 0 <= c < |mask| ensures heard[i][c] == after[i][c] {
        }
      }
    }
    forall change <- changes ensures InBounds(change, before, after) {
      forall i | top <= i <= bottom
        ensures |before[i]| == |after[i]| && change.right < |before[i]|
        ensures forall c :: change.left <= c <= change.right ==> before[i][c] != after[i][c]
      {
        assert Differs(before[i], after[i], mask);
      }
    }
  }

  // ----- comparing rows -----

  /** Sign of the comparison of two strings by their code units. */
  function Compare(a: string, b: string): (r: int)
    ensures r == 0 <==> a == b
  {
    if a == [] then (if b == [] then 0 else -1)
    else if b == [] then 1
    else if a[0] == b[0] then
      var r := Compare(a[1..], b[1..]);
      assert a == [a[0]] + a[1..] && b == [b[0]] + b[1..];
      r
    else if a[0] < b[0] then -1 else 1
  }

  lemma {:induction false} CompareTurned(a: string, b: string)
    ensures Compare(a, b) == -Compare(b, a)
  {
    if a != [] && b != [] && a[0] == b[0] {
      CompareTurned(a[1..], b[1..]);
    }
  }

  /** The first character in which texts differ decides, and a text comes behind those it begins with. */
  lemma {:induction false} CompareOrders(front: string, a: string, b: string)
    requires a != b && (a != [] && b != [] ==> a[0] != b[0])
    ensures Compare(front + a, front + b) < 0 <==> a == [] || (b != [] && a[0] < b[0])
  {
    if front == [] {
      assert front + a == a && front + b == b;
    } else {
      assert (front + a)[1..] == front[1..] + a && (front + b)[1..] == front[1..] + b;
      CompareOrders(front[1..], a, b);
    }
  }

  type OrderBy = seq<(nat, bool)>

  function IdentityVector(identity: OrderBy, row: Row): (r: Identity)
    requires forall i :: 0 <= i < |identity| ==> identity[i].0 < |row|
    ensures |r| == |identity|
    ensures forall i :: 0 <= i < |identity| ==> r[i] == row[identity[i].0]
  {
    seq(|identity|, i requires 0 <= i < |identity| => row[identity[i].0])
  }

  /** The first identity column in which the rows differ. */
  ghost predicate FirstParting(identity: OrderBy, lhs: Row, rhs: Row, i: int)
    requires forall i :: 0 <= i < |identity| ==> identity[i].0 < |lhs| && identity[i].0 < |rhs|
  {
    && 0 <= i < |identity| && lhs[identity[i].0] != rhs[identity[i].0]
    && forall j :: 0 <= j < i ==> lhs[identity[j].0] == rhs[identity[j].0]
  }

  /** The sign is decided by the first identity column in which the rows differ, and turned where it descends. */
  method RowIdentityCompare(identity: OrderBy, lhs: Row, rhs: Row) returns (r: int)
    requires forall i :: 0 <= i < |identity| ==> identity[i].0 < |lhs| && identity[i].0 < |rhs|
    ensures r == 0 <==> IdentityVector(identity, lhs) == IdentityVector(identity, rhs)
    ensures forall i :: FirstParting(identity, lhs, rhs, i) ==>
              var diff := Compare(lhs[identity[i].0], rhs[identity[i].0]);
              r == if identity[i].1 then diff else -diff
  {
    hide Compare;
    for i := 0 to |identity|
      invariant forall j :: 0 <= j < i ==> lhs[identity[j].0] == rhs[identity[j].0]
    {
      var diff := Compare(lhs[identity[i].0], rhs[identity[i].0]);
      if diff != 0 {
        assert IdentityVector(identity, lhs)[i] != IdentityVector(identity, rhs)[i];
        return if identity[i].1 then diff else -diff;
      }
    }
    return 0;
  }

  method FirstRowDataChangedCompare(lhs: Row, rhs: Row) returns (r: int, changedColumns: seq<bool>)
    ensures r == 0 <==> lhs == rhs
    ensures forall c :: 0 <= c < Min(|lhs|, |rhs|) && lhs[..c] == rhs[..c] && lhs[c] != rhs[c] ==>
              r == Compare(lhs[c], rhs[c])
    ensures |changedColumns| == Min(|lhs|, |rhs|)
    ensures forall c :: 0 <= c < |changedColumns| ==> (changedColumns[c] <==> lhs[c] != rhs[c])
  {
    r := 0;
    changedColumns := [];
    for i := 0 to Min(|lhs|, |rhs|)
      invariant |changedColumns| == i
      invariant forall c :: 0 <= c < i ==> (changedColumns[c] <==> lhs[c] != rhs[c])
      invariant r == 0 <==> lhs[..i] == rhs[..i]
      invariant forall c :: 0 <= c < i && lhs[..c] == rhs[..c] && lhs[c] != rhs[c] ==> r == Compare(lhs[c], rhs[c])
    {
      var diff := Compare(lhs[i], rhs[i]);
      changedColumns := changedColumns + [diff != 0];
      if diff != 0 && r == 0 {
        r := diff;
      }
    }
    if r == 0 {
      r := |lhs| - |rhs|;
    }
  }

  method ContinuousRowDataChangedCheck(lhs: Row, rhs: Row, changedColumns: seq<bool>) returns (same: bool)
    ensures same <==> |changedColumns| == Min(|lhs|, |rhs|)
                      && forall c :: 0 <= c < |changedColumns| ==> (changedColumns[c] <==> lhs[c] != rhs[c])
  {
    if |changedColumns| != Min(|lhs|, |rhs|) {
      return false;
    }
    for i := 0 to Min(|lhs|, |rhs|)
      invariant forall c :: 0 <= c < i ==> (changedColumns[c] <==> lhs[c] != rhs[c])
    {
      if (Compare(lhs[i], rhs[i]) != 0) != changedColumns[i] {
        return false;
      }
    }
    return true;
  }

  // ----- the lookup -----

  /** The rows from `row` on, `count` of them, that a lookup entry stands for. */
  datatype SimpleRange = SimpleRange(row: nat, count: nat)

  ghost predicate Wide(identity: OrderBy, rows: seq<Row>, width: nat) {
    && (forall i :: 0 <= i < |identity| ==> identity[i].0 < width)
    && (forall row <- rows :: |row| == width)
  }

  ghost predicate FirstWith(identity: OrderBy, rows: seq<Row>, width: nat, id: Identity, k: nat)
    requires Wide(identity, rows, width)
  {
    && k < |rows| && IdentityVector(identity, rows[k]) == id
    && forall j :: 0 <= j < k ==> IdentityVector(identity, rows[j]) != id
  }

  /** The lookup holds the identities of the first `n` rows, each with the row it first occurs at. */
  ghost predicate IsLookup(identity: OrderBy, rows: seq<Row>, width: nat, lookup: map<Identity, SimpleRange>, n: nat)
    requires Wide(identity, rows, width) && n <= |rows|
  {
    && (forall id <- lookup ::
          lookup[id].count == 1 && lookup[id].row < n && FirstWith(identity, rows, width, id, lookup[id].row))
    && (forall j :: 0 <= j < n ==> IdentityVector(identity, rows[j]) in lookup)
  }

  lemma FirstTime(
    identity: OrderBy, rows: seq<Row>, width: nat, lookup: map<Identity, SimpleRange>, n: nat)
    requires Wide(identity, rows, width) && n < |rows| && IsLookup(identity, rows, width, lookup, n)
    requires IdentityVector(identity, rows[n]) !in lookup
    ensures FirstWith(identity, rows, width, IdentityVector(identity, rows[n]), n)
  {
    hide IdentityVector;
  }

  lemma StillLookup(
    identity: OrderBy, rows: seq<Row>, width: nat, lookup: map<Identity, SimpleRange>, n: nat)
    requires Wide(identity, rows, width) && n < |rows| && IsLookup(identity, rows, width, lookup, n)
    requires IdentityVector(identity, rows[n]) in lookup
    ensures IsLookup(identity, rows, width, lookup, n + 1)
  {
    hide FirstWith, IdentityVector;
  }

  lemma LookupOn(identity: OrderBy, rows: seq<Row>, width: nat, lookup: map<Identity, SimpleRange>, n: nat)
    requires Wide(identity, rows, width) && n < |rows| && IsLookup(identity, rows, width, lookup, n)
    ensures var id := IdentityVector(identity, rows[n]);
            && (id in lookup ==> lookup[id].count == 1)
            && IsLookup(identity, rows, width, if id in lookup then lookup else lookup[id := SimpleRange(n, 1)], n + 1)
  {
    hide FirstWith, IdentityVector;
    var id := IdentityVector(identity, rows[n]);
    if id in lookup {
      StillLookup(identity, rows, width, lookup, n);
    } else {
      FirstTime(identity, rows, width, lookup, n);
      var more := lookup[id := SimpleRange(n, 1)];
      assert forall i <- more :: i == id || (i in lookup && more[i] == lookup[i]);
    }
  }

  /** Indexes the new rows by identity. The identity of the run is never remembered, so every row starts
      an entry of its own, and a row whose identity has an entry is counted in a dummy. */
  method PrepareLookup(identity: OrderBy, rows: seq<Row>, ghost width: nat) returns (lookup: map<Identity, SimpleRange>)
    requires Wide(identity, rows, width) && identity != []
    ensures IsLookup(identity, rows, width, lookup, |rows|)
  {
    lookup := map[];
    var activeIndex: Identity := [];
    assert IsLookup(identity, rows, width, lookup, 0);
    hide IsLookup;
    for rci := 0 to |rows|
      invariant activeIndex == []
      invariant IsLookup(identity, rows, width, lookup, rci)
    {
      var index := IdentityVector(identity, rows[rci]);
      LookupOn(identity, rows, width, lookup, rci);
      if index != activeIndex {
        if index !in lookup || lookup[index].count == 0 {
          lookup := lookup[index := SimpleRange(rci, 0)];
          lookup := lookup[index := lookup[index].(count := lookup[index].count + 1)];
        }
      }
    }
  }

  // ----- which rows stay -----

  /** What a slice is to become: the rows that take its place from `start` on, how many rows lie behind the slice, and
      what identifies a row. */
  datatype Plan = Plan(identity: OrderBy, start: nat, rows: seq<Row>, behind: int, width: nat)
  {
    ghost predicate Valid() {
      Wide(identity, rows, width)
    }

    /** New row `k` is the first one with the identity of `row`. */
    ghost predicate Becomes(row: Row, k: nat)
      requires Valid()
    {
      |row| == width && FirstWith(identity, rows, width, IdentityVector(identity, row), k)
    }

    /** With `source` new rows passed, the identity of `row` first occurs at none of those still to come. */
    ghost predicate CannotStay(row: Row, source: int)
      requires Valid()
    {
      |row| == width && forall k: nat :: source <= k < |rows| ==> !Becomes(row, k)
    }

    /** From `start` up to `end` the new rows are there. */
    ghost predicate DoneUpTo(now: seq<Row>, end: int) {
      && start <= end <= |now| && end - start <= |rows|
      && forall i :: start <= i < end ==> now[i] == rows[i - start]
    }

    /** Behind the new rows that are there a row is taken out only if it cannot stay; new rows are only put in up to one
        that stays, or when nothing of the slice is left; and no row is changed into one with another identity. */
    ghost predicate Spares(before: seq<Row>, change: Change, after: seq<Row>)
      requires Valid()
    {
      match change
      case Removed(first, last) =>
        && DoneUpTo(before, first)
        && last < |before| && forall i :: first <= i <= last ==> CannotStay(before[i], first - start)
      case Inserted(first, last) =>
        var end := last + 1;
        && DoneUpTo(before, first) && DoneUpTo(after, end)
        && if end - start == |rows| then |after| == end + behind
           else end < |after| && Becomes(after[end], end - start)
      case Changed(top, left, bottom, right) =>
        && DoneUpTo(before, top) && DoneUpTo(after, bottom + 1)
        && forall i :: 0 <= i < |identity| ==> !(left <= identity[i].0 <= right)
    }

    ghost predicate AllSpare(before: seq<Row>, a: Announcement)
      requires Valid()
    {
      forall change <- a.changes :: Spares(before, change, a.readable)
    }

    /** Throughout a log. */
    ghost predicate Sparing(before: seq<Row>, log: seq<Announcement>)
      requires Valid()
    {
      forall n :: 0 <= n < |log| ==> AllSpare(Readable(before, log[..n]), log[n])
    }
  }

  /** No marked column belongs to the identity. */
  ghost predicate SparesIdentity(identity: OrderBy, mask: seq<bool>) {
    forall i :: 0 <= i < |identity| && identity[i].0 < |mask| ==> !mask[identity[i].0]
  }

  lemma SameUnmarked(identity: OrderBy, lhs: Row, rhs: Row, mask: seq<bool>)
    requires Differs(lhs, rhs, mask) && forall i :: 0 <= i < |identity| ==> identity[i].0 < |lhs|
    requires IdentityVector(identity, lhs) == IdentityVector(identity, rhs)
    ensures SparesIdentity(identity, mask)
  {
    forall i | 0 <= i < |identity| && identity[i].0 < |mask| ensures !mask[identity[i].0] {
      assert IdentityVector(identity, lhs)[i] == IdentityVector(identity, rhs)[i];
    }
  }

  lemma SparingOn(plan: Plan, rows: seq<Row>, log: seq<Announcement>, a: Announcement)
    requires plan.Valid() && plan.Sparing(rows, log) && plan.AllSpare(Readable(rows, log), a)
    ensures plan.Sparing(rows, log + [a])
  {
    var longer := log + [a];
    forall n | 0 <= n < |longer| ensures plan.AllSpare(Readable(rows, longer[..n]), longer[n]) {
      assert longer[..n] == log[..n];
      assert n == |log| ==> log[..n] == log;
    }
  }

  lemma SparingOne(plan: Plan, rows: seq<Row>, a: Announcement)
    requires plan.Valid() && |a.changes| == 1 && plan.Spares(rows, a.changes[0], a.readable)
    ensures plan.Sparing(rows, [a])
  {
    assert [a][..0] == [];
  }

  lemma JoinedAt<T>(a: seq<T>, b: seq<T>, n: nat)
    requires n < |a + b|
    ensures n < |a| ==> (a + b)[..n] == a[..n] && (a + b)[n] == a[n]
    ensures n >= |a| ==> (a + b)[..n] == a + b[..n - |a|] && (a + b)[n] == b[n - |a|]
  {
  }

  lemma JoinSparing(plan: Plan, rows: seq<Row>, a: seq<Announcement>, b: seq<Announcement>)
    requires plan.Valid() && plan.Sparing(rows, a) && plan.Sparing(Readable(rows, a), b)
    ensures plan.Sparing(rows, a + b)
  {
    forall n | 0 <= n < |a + b| ensures plan.AllSpare(Readable(rows, (a + b)[..n]), (a + b)[n]) {
      hide Plan.AllSpare;
      JoinedAt(a, b, n);
      if n >= |a| {
        var m := n - |a|;
        assert plan.AllSpare(Readable(Readable(rows, a), b[..m]), b[m]);
      }
    }
  }

  /** The lookup tells where the identity of a row first occurs, or that it does not. */
  lemma LookupSays(plan: Plan, lookup: map<Identity, SimpleRange>, row: Row, source: nat)
    requires plan.Valid() && IsLookup(plan.identity, plan.rows, plan.width, lookup, |plan.rows|)
    requires |row| == plan.width
    ensures forall i :: 0 <= i < |plan.identity| ==> plan.identity[i].0 < |row|
    ensures var id := IdentityVector(plan.identity, row);
            if id in lookup then
              && lookup[id].count == 1 && plan.Becomes(row, lookup[id].row)
              && (lookup[id].row < source ==> plan.CannotStay(row, source))
            else plan.CannotStay(row, source)
  {
  }

  lemma SplicedDone(plan: Plan, old_: seq<Row>, source: nat, target: nat)
    requires plan.start <= target <= |old_| && source <= |plan.rows|
    ensures plan.DoneUpTo(Spliced(old_, plan.rows, plan.start, source, target), plan.start + source)
  {
  }

  lemma ChangesSpare(
    plan: Plan, old_: seq<Row>, source: nat, target: nat, n: nat, changes: seq<Change>, mask: seq<bool>)
    requires plan.Valid() && plan.start <= target <= target + n <= |old_| && source + n <= |plan.rows|
    requires WithinMask(changes, mask, plan.start + source, plan.start + source + n - 1)
    requires SparesIdentity(plan.identity, mask)
    ensures var before := Spliced(old_, plan.rows, plan.start, source, target);
            var after := Spliced(old_, plan.rows, plan.start, source + n, target + n);
            plan.AllSpare(before, Announcement(changes, before, after))
  {
    hide Spliced, Plan.DoneUpTo;
    SplicedDone(plan, old_, source, target);
    SplicedDone(plan, old_, source + n, target + n);
  }

  lemma RemovalSpares(plan: Plan, old_: seq<Row>, source: nat, target: nat, n: nat, after: seq<Row>)
    requires plan.Valid() && plan.start <= target <= target + n <= |old_| && source <= |plan.rows|
    requires forall t :: target <= t < target + n ==> plan.CannotStay(old_[t], source)
    ensures var before := Spliced(old_, plan.rows, plan.start, source, target);
            plan.Spares(before, Removed(plan.start + source, plan.start + source + n - 1), after)
  {
    hide Spliced, Plan.DoneUpTo;
    var before := Spliced(old_, plan.rows, plan.start, source, target);
    var first := plan.start + source;
    SplicedDone(plan, old_, source, target);
    SplicedAt(old_, plan.rows, plan.start, source, target, 0);
    forall i | first <= i <= first + n - 1 ensures plan.CannotStay(before[i], source) {
      SplicedAt(old_, plan.rows, plan.start, source, target, i);
      assert old_[i - first + target] == before[i];
    }
  }

  lemma InsertionSpares(plan: Plan, old_: seq<Row>, source: nat, target: nat, n: nat)
    requires plan.Valid() && plan.start <= target <= |old_| && source + n <= |plan.rows| && n > 0
    requires if source + n == |plan.rows| then target + plan.behind == |old_|
             else target < |old_| && plan.Becomes(old_[target], source + n)
    ensures var before := Spliced(old_, plan.rows, plan.start, source, target);
            var after := Spliced(old_, plan.rows, plan.start, source + n, target);
            plan.Spares(before, Inserted(plan.start + source, plan.start + source + n - 1), after)
  {
    hide Spliced, Plan.DoneUpTo;
    SplicedDone(plan, old_, source, target);
    SplicedDone(plan, old_, source + n, target);
    SplicedAt(old_, plan.rows, plan.start, source + n, target, plan.start + source + n);
  }

  // ----- the migration -----

  function Spliced(old_: seq<Row>, new_: seq<Row>, start: nat, source: nat, target: nat): seq<Row>
    requires start <= target <= |old_| && source <= |new_|
  {
    old_[..start] + new_[..source] + old_[target..]
  }

  lemma SplicedAt(old_: seq<Row>, new_: seq<Row>, start: nat, source: nat, target: nat, row: nat)
    requires start <= target <= |old_| && source <= |new_|
    ensures var view := Spliced(old_, new_, start, source, target);
            && |view| == start + source + |old_| - target
            && (row < |view| ==> view[row] == if row < start then old_[row]
                                              else if row - start < source then new_[row - start]
                                              else old_[row - start - source + target])
  {
  }

  class SmoothTransition {
    var oldRows: seq<Row>
    var newRows: seq<Row>
    const identity: OrderBy
    var lookup: map<Identity, SimpleRange>
    var finalizationReady: bool
    var startRow: nat
    var toNewMidOffset: int
    var toOldUpperOffset: int
    var currentTarget: nat
    var currentSource: nat
    var changedTarget: nat
    var changedSource: nat
    var ti: nat
    var tiEnd: nat
    var si: nat
    // the size of the model's own row store while the transition is delegated to
    var modelSize: int
    ghost var width: nat
    ghost var log: seq<Announcement>

    constructor (oldRows: seq<Row>, identity: OrderBy)
      ensures this.oldRows == oldRows && this.identity == identity && !finalizationReady && log == []
    {
      this.oldRows := oldRows;
      this.identity := identity;
      newRows, lookup, finalizationReady := [], map[], false;
      startRow, toNewMidOffset, toOldUpperOffset := 0, 0, 0;
      currentTarget, currentSource, changedTarget, changedSource := 0, 0, 0, 0;
      ti, tiEnd, si, modelSize := 0, 0, 0, |oldRows|;
      log := [];
    }

    /** The rows the model gives out: old ones, then new ones, then old ones again. */
    ghost function View(): seq<Row>
      requires startRow <= currentTarget <= |oldRows| && currentSource <= |newRows|
      reads `oldRows, `newRows, `startRow, `currentTarget, `currentSource
    {
      Spliced(oldRows, newRows, startRow, currentSource, currentTarget)
    }

    /** The offsets agree with the two rows the migration has come to. */
    ghost predicate Placed()
      reads `oldRows, `newRows, `lookup, `startRow, `tiEnd, `currentTarget, `currentSource, `toNewMidOffset,
            `toOldUpperOffset, `modelSize, `width
    {
      && startRow <= currentTarget <= tiEnd <= |oldRows|
      && currentSource <= |newRows|
      && toNewMidOffset == 0 - startRow
      && toOldUpperOffset == currentTarget - startRow - currentSource
      && modelSize == |oldRows| - toOldUpperOffset
      && Wide(identity, oldRows[startRow..tiEnd], width) && Wide(identity, newRows, width)
      && IsLookup(identity, newRows, width, lookup, |newRows|)
    }

    /** What the slice is to become. */
    ghost function Goal(): Plan
      reads `startRow, `newRows, `oldRows, `tiEnd, `width
    {
      Plan(identity, startRow, newRows, |oldRows| - tiEnd, width)
    }

    /** What a migration that is asked for is to make of the old rows. */
    ghost function Aim(start: nat, count: nat, newRange: seq<Row>, width_: nat): Plan
      reads `oldRows
    {
      Plan(identity, start, newRange, |oldRows| - Min(start + count, |oldRows|), width_)
    }

    /** Placed, with all the cursors on those rows. */
    ghost predicate Running()
      reads this
    {
      Placed() && ti == currentTarget == changedTarget && si == currentSource == changedSource
    }

    /** Reads one row in the middle of the migration. */
    method CreateRow(row: nat) returns (r: Row)
      requires Placed() && row < modelSize
      ensures |View()| == modelSize && r == View()[row]
    {
      hide Spliced, Wide, IsLookup;
      SplicedAt(oldRows, newRows, startRow, currentSource, currentTarget, row);
      if row < startRow {
        return oldRows[row];
      }
      var sourceRow := row + toNewMidOffset;
      if sourceRow < currentSource {
        return newRows[sourceRow];
      }
      return oldRows[row + toOldUpperOffset];
    }

    /** Whether both cursors are on a row. */
    method VerifyRowAdvancement() returns (b: bool)
      ensures b <==> ti != tiEnd && si != |newRows|
    {
      b := !(ti == tiEnd || si == |newRows|);
    }

    /** Moves past rows that are equal. */
    method WhileEqual() returns (rowByRow: bool)
      requires ti <= tiEnd <= |oldRows| && si <= |newRows|
      modifies this`ti, this`si
      ensures old(ti) <= ti <= tiEnd && old(si) <= si <= |newRows| && ti - old(ti) == si - old(si)
      ensures oldRows[old(ti)..ti] == newRows[old(si)..si]
      ensures rowByRow <==> ti != tiEnd && si != |newRows|
      ensures rowByRow ==> oldRows[ti] != newRows[si]
    {
      rowByRow := VerifyRowAdvancement();
      while rowByRow && oldRows[ti] == newRows[si]
        invariant old(ti) <= ti <= tiEnd && old(si) <= si <= |newRows| && ti - old(ti) == si - old(si)
        invariant rowByRow <==> ti != tiEnd && si != |newRows|
        invariant oldRows[old(ti)..ti] == newRows[old(si)..si]
        decreases tiEnd - ti
        modifies this`ti, this`si
      {
        SliceOn(oldRows, old(ti), ti);
        SliceOn(newRows, old(si), si);
        ti, si := ti + 1, si + 1;
        rowByRow := VerifyRowAdvancement();
      }
    }

    /** Steps over rows that are equal. Nothing is announced, as the readable rows stay the same. */
    method AdvanceEqual() returns (rowByRow: bool)
      requires Running()
      modifies this`ti, this`si, this`currentTarget, this`currentSource, this`changedTarget, this`changedSource
      ensures Running() && View() == old(View())
      ensures ti - old(ti) == si - old(si) >= 0
      ensures rowByRow <==> ti != tiEnd && si != |newRows|
      ensures rowByRow ==> oldRows[ti] != newRows[si]
    {
      hide Wide, IsLookup, Spliced;
      rowByRow := WhileEqual();
      SplicedOverEqual(oldRows, newRows, startRow, currentSource, currentTarget, si - currentSource);
      if changedTarget > ti {
        rowByRow := true;
      } else {
        changedSource, changedTarget := si, ti;
      }
      currentSource, currentTarget := changedSource, changedTarget;
    }

    /** Names the marked cells of the rows top..bottom, one change for each run of marked columns. */
    method AnnounceRuns(mask: seq<bool>, ghost top: int, ghost bottom: int) returns (ghost changes: seq<Change>)
      ensures WithinMask(changes, mask, top, bottom)
      ensures forall c :: 0 <= c < |mask| && mask[c] ==> Named(changes, c)
    {
      changes := [];
      var i, j := 0, 0;
      while i < |mask|
        invariant 0 <= i == j <= |mask|
        invariant WithinMask(changes, mask, top, bottom)
        invariant forall c :: 0 <= c < i && mask[c] ==> Named(changes, c)
        decreases |mask| - i
      {
        ghost var from := i;
        while i < |mask| && !mask[i]
          invariant from <= i <= |mask|
          invariant forall c :: from <= c < i ==> !mask[c]
        {
          i := i + 1;
        }
        j := i;
        while j < |mask| && mask[j]
          invariant i <= j <= |mask|
          invariant forall c :: i <= c < j ==> mask[c]
        {
          j := j + 1;
        }
        if j > i {
          NamedOn(changes, Changed(top, i, bottom, j - 1));
          changes := changes + [Changed(top, i, bottom, j - 1)];
        }
        i := j;
      }
    }

    /** Moves past the rows that differ in the same columns. */
    method WhileSameColumns(mask: seq<bool>) returns (rowByRow: bool)
      requires ti == currentTarget == changedTarget < tiEnd <= |oldRows|
               && si == currentSource == changedSource < |newRows|
      requires Differs(oldRows[ti], newRows[si], mask)
      requires forall t :: ti <= t < tiEnd ==> |oldRows[t]| == width
      requires forall s :: si <= s < |newRows| ==> |newRows[s]| == width
      modifies this`ti, this`si, this`changedTarget, this`changedSource
      ensures ti == changedTarget && si == changedSource
      ensures currentTarget < ti <= tiEnd && currentSource < si <= |newRows|
      ensures ti - currentTarget == si - currentSource
      ensures rowByRow <==> ti != tiEnd && si != |newRows|
      ensures forall t :: currentTarget <= t < ti ==>
              Differs(oldRows[t], newRows[currentSource + t - currentTarget], mask)
    {
      hide Differs;
      rowByRow := true;
      var more := true;
      while more
        invariant ti == changedTarget && si == changedSource
        invariant currentTarget <= ti <= tiEnd && currentSource <= si <= |newRows|
        invariant ti - currentTarget == si - currentSource
        invariant more ==> ti < tiEnd && si < |newRows| && Differs(oldRows[ti], newRows[si], mask)
        invariant !more ==> ti > currentTarget && (rowByRow <==> ti != tiEnd && si != |newRows|)
        invariant forall t :: currentTarget <= t < ti ==>
                  Differs(oldRows[t], newRows[currentSource + t - currentTarget], mask)
        decreases tiEnd - ti, more
        modifies this`ti, this`si, this`changedTarget, this`changedSource
      {
        changedSource, changedTarget, ti, si := changedSource + 1, changedTarget + 1, ti + 1, si + 1;
        rowByRow := VerifyRowAdvancement();
        more := rowByRow;
        if rowByRow {
          more := ContinuousRowDataChangedCheck(oldRows[ti], newRows[si], mask);
          DiffersIf(oldRows[ti], newRows[si], mask);
        }
      }
    }

    /** Announces the cells of the rows passed, and only then lets the new ones be read. */
    method AnnounceChanged(mask: seq<bool>) returns (ghost a: Announcement)
      requires Placed() && currentTarget < changedTarget <= tiEnd && currentSource < changedSource <= |newRows|
      requires changedTarget - currentTarget == changedSource - currentSource
      requires forall t :: currentTarget <= t < changedTarget ==>
                 Differs(oldRows[t], newRows[currentSource + t - currentTarget], mask)
      requires SparesIdentity(identity, mask)
      modifies this`currentTarget, this`currentSource, this`log
      ensures Goal().Valid() && Goal().AllSpare(old(View()), a)
      ensures Placed() && currentTarget == changedTarget && currentSource == changedSource
      ensures log == old(log) + [a] && Honest(old(View()), a) && a.readable == View() && a.during == old(View())
      ensures forall change <- a.changes :: change.Changed?
      ensures forall c :: 0 <= c < |mask| && mask[c] ==> Named(a.changes, c)
    {
      hide IsLookup, Spliced, Differs, Wide, Honest, Named;
      ghost var top, bottom := currentSource - toNewMidOffset, changedSource - toNewMidOffset - 1;
      ghost var changes := AnnounceRuns(mask, top, bottom);
      ghost var during := View();
      ChangedHonestly(oldRows, newRows, startRow, currentSource, currentTarget, changedTarget - currentTarget,
          changes, mask);
      ChangesSpare(Goal(), oldRows, currentSource, currentTarget, changedTarget - currentTarget, changes, mask);
      currentSource, currentTarget := changedSource, changedTarget;
      a := Announcement(changes, during, View());
      log := log + [a];
    }

    /** Steps over rows that differ in the same columns, and announces their cells. */
    method AdvanceChanged(mask: seq<bool>) returns (rowByRow: bool, ghost a: Announcement)
      requires Running() && ti < tiEnd && si < |newRows|
      requires Differs(oldRows[ti], newRows[si], mask) && SparesIdentity(identity, mask)
      modifies this`ti, this`si, this`currentTarget, this`currentSource, this`changedTarget, this`changedSource,
               this`toOldUpperOffset, this`log
      ensures Running() && Goal().Valid() && Goal().AllSpare(old(View()), a)
      ensures ti - old(ti) == si - old(si) > 0
      ensures rowByRow <==> ti != tiEnd && si != |newRows|
      ensures log == old(log) + [a] && Honest(old(View()), a) && a.readable == View() && a.during == old(View())
      ensures forall change <- a.changes :: change.Changed? && InBounds(change, a.during, View())
      ensures forall c :: 0 <= c < |mask| && mask[c] ==> Named(a.changes, c)
    {
      hide IsLookup, Spliced, Differs, Wide, Honest, InBounds, Named,
           Plan.Sparing, Plan.AllSpare, Plan.Spares, Plan.Becomes, Plan.CannotStay;
      OldWidth();
      rowByRow := WhileSameColumns(mask);
      a := AnnounceChanged(mask);
      BoundsOf(old(View()), a);
    }

    /** Both rows are wide enough for the identity columns, and agree in them. */
    ghost predicate SameIdentity(lhs: Row, rhs: Row)
    {
      && (forall i :: 0 <= i < |identity| ==> identity[i].0 < |lhs| && identity[i].0 < |rhs|)
      && IdentityVector(identity, lhs) == IdentityVector(identity, rhs)
    }

    /** Matches rows one by one until the identities part. */
    method AdvanceRows() returns (ghost done: seq<Announcement>)
      requires Running()
      modifies this`ti, this`si, this`currentTarget, this`currentSource, this`changedTarget, this`changedSource,
               this`toOldUpperOffset, this`log
      ensures Running() && ti - old(ti) == si - old(si) >= 0
      ensures log == old(log) + done && AllHonest(old(View()), done) && Readable(old(View()), done) == View()
      ensures Goal().Valid() && Goal().Sparing(old(View()), done)
      ensures ti < tiEnd && si < |newRows| ==> !SameIdentity(oldRows[ti], newRows[si])
    {
      hide Spliced, Honest, IsLookup, AllHonest, Readable, Wide, Placed,
           Plan.Sparing, Plan.AllSpare, Plan.Valid, SparesIdentity, Differs, SameIdentity;
      done := [];
      Bounds();
      HonestNone(View());
      var rowByRow := VerifyRowAdvancement();
      while rowByRow
        invariant Running() && ti - old(ti) == si - old(si) >= 0
        invariant startRow <= ti <= tiEnd <= |oldRows| && si <= |newRows|
        invariant rowByRow || ti == tiEnd || si == |newRows|
        invariant log == old(log) + done && AllHonest(old(View()), done) && Readable(old(View()), done) == View()
        invariant Goal().Valid() && Goal().Sparing(old(View()), done)
        decreases tiEnd - ti, rowByRow
      {
        rowByRow := AdvanceEqual();
        Bounds();
        if !rowByRow {
          break;
        }
        var mask := ColumnsToChange();
        if mask == [] {
          break;
        }
        ghost var a;
        rowByRow, a := AdvanceChanged(mask);
        Bounds();
        LogOn(old(View()), done, a);
        SparingOn(Goal(), old(View()), done, a);
        done := done + [a];
      }
    }

    /** The columns in which the rows at the cursors differ, if they are the same row by identity. */
    method ColumnsToChange() returns (mask: seq<bool>)
      requires Running() && ti < tiEnd && si < |newRows| && oldRows[ti] != newRows[si]
      ensures mask == [] ==> !SameIdentity(oldRows[ti], newRows[si])
      ensures mask != [] ==> Differs(oldRows[ti], newRows[si], mask) && SparesIdentity(identity, mask)
    {
      hide IsLookup;
      OldWidth();
      mask := [];
      var parted := RowIdentityCompare(identity, oldRows[ti], newRows[si]);
      if parted == 0 {
        var diff, columns := FirstRowDataChangedCompare(oldRows[ti], newRows[si]);
        if diff != 0 {
          DiffersIf(oldRows[ti], newRows[si], columns);
          SameUnmarked(identity, oldRows[ti], newRows[si], columns);
          mask := columns;
        }
      }
    }

    /** Finds the next old row whose identity first occurs at a new row not passed yet; returns that new row.
        None of the old rows passed could stay. */
    method IterateTargetToIdentitySource() returns (s: int)
      requires Running()
      modifies this`ti
      ensures old(ti) <= ti <= tiEnd && currentSource <= s <= |newRows|
      ensures ti == tiEnd <==> s == |newRows|
      ensures ti < tiEnd ==> SameIdentity(oldRows[ti], newRows[s])
      ensures Goal().Valid() && forall t :: old(ti) <= t < ti ==> Goal().CannotStay(oldRows[t], currentSource)
      ensures ti < tiEnd ==> Goal().Becomes(oldRows[ti], s)
    {
      hide Spliced, IsLookup,
           Plan.Sparing, Plan.AllSpare, Plan.Spares, Plan.CannotStay;
      OldWidth();
      while ti != tiEnd
        invariant old(ti) <= ti <= tiEnd
        invariant forall t :: old(ti) <= t < ti ==> Goal().CannotStay(oldRows[t], currentSource)
        decreases tiEnd - ti
        modifies this`ti
      {
        var id := IdentityVector(identity, oldRows[ti]);
        LookupSays(Goal(), lookup, oldRows[ti], currentSource);
        if id in lookup {
          var fsi := lookup[id].row;
          var diff := currentSource - fsi;
          if diff < lookup[id].count {
            return if diff > 0 then fsi + diff else fsi;
          }
        }
        ti := ti + 1;
      }
      return |newRows|;
    }

    /** Announces the removal of the old rows in front of the next one that stays. */
    method RemoveOld() returns (ghost done: seq<Announcement>)
      requires Placed() && Goal().Valid() && currentTarget <= changedTarget <= tiEnd
      requires forall t :: currentTarget <= t < changedTarget ==> Goal().CannotStay(oldRows[t], currentSource)
      modifies this`currentTarget, this`toOldUpperOffset, this`modelSize, this`log
      ensures Placed() && currentTarget == changedTarget
      ensures log == old(log) + done && AllHonest(old(View()), done) && Readable(old(View()), done) == View()
      ensures Goal().Valid() && Goal().Sparing(old(View()), done)
    {
      hide IsLookup, Wide, Honest, AllHonest, Readable, Spliced,
           Plan.Sparing, Plan.AllSpare, Plan.Spares, Plan.Becomes, Plan.CannotStay;
      var removedRows := changedTarget - currentTarget;
      done := [];
      HonestNone(View());
      if removedRows != 0 {
        ghost var before := View();
        ghost var first := currentSource - toNewMidOffset;
        RemovedHonestly(oldRows, newRows, startRow, currentSource, currentTarget, removedRows);
        ghost var target := currentTarget;
        currentTarget := changedTarget;
        toOldUpperOffset := toOldUpperOffset + removedRows;
        modelSize := |oldRows| - toOldUpperOffset;
        done := [Announcement([Removed(first, first + removedRows - 1)], View(), View())];
        HonestOne(before, done[0]);
        RemovalSpares(Goal(), oldRows, currentSource, target, removedRows, View());
        SparingOne(Goal(), before, done[0]);
        log := log + done;
      }
    }

    /** Announces the insertion of the new rows in front of the next one that is already there. */
    method InsertNew() returns (ghost done: seq<Announcement>)
      requires Placed() && Goal().Valid() && currentSource <= changedSource <= |newRows|
      requires if changedSource == |newRows| then currentTarget == tiEnd
               else currentTarget < tiEnd && Goal().Becomes(oldRows[currentTarget], changedSource)
      modifies this`currentSource, this`toOldUpperOffset, this`modelSize, this`log
      ensures Placed() && currentSource == changedSource
      ensures log == old(log) + done && AllHonest(old(View()), done) && Readable(old(View()), done) == View()
      ensures Goal().Valid() && Goal().Sparing(old(View()), done)
    {
      hide IsLookup, Wide, Honest, AllHonest, Readable, Spliced,
           Plan.Sparing, Plan.AllSpare, Plan.Spares, Plan.Becomes, Plan.CannotStay;
      var insertedRows := changedSource - currentSource;
      done := [];
      HonestNone(View());
      if insertedRows != 0 {
        ghost var before := View();
        ghost var first, last := currentSource - toNewMidOffset, changedSource - toNewMidOffset - 1;
        InsertedHonestly(oldRows, newRows, startRow, currentSource, currentTarget, insertedRows);
        InsertionSpares(Goal(), oldRows, currentSource, currentTarget, insertedRows);
        currentSource := changedSource;
        toOldUpperOffset := toOldUpperOffset - insertedRows;
        modelSize := |oldRows| - toOldUpperOffset;
        done := [Announcement([Inserted(first, last)], View(), View())];
        HonestOne(before, done[0]);
        SparingOne(Goal(), before, done[0]);
        log := log + done;
      }
    }

    /** One round: match rows, find the next old row that stays, announce what goes and comes before it. */
    method Round() returns (ghost done: seq<Announcement>)
      requires Running() && ti < tiEnd && identity != []
      modifies this`ti, this`si, this`currentTarget, this`currentSource, this`changedTarget, this`changedSource,
               this`toOldUpperOffset, this`modelSize, this`log
      ensures Running() && ti + si > old(ti) + old(si)
      ensures ti == tiEnd ==> si == |newRows|
      ensures log == old(log) + done && AllHonest(old(View()), done) && Readable(old(View()), done) == View()
      ensures Goal().Valid() && Goal().Sparing(old(View()), done)
    {
      hide Spliced, Honest, IsLookup, AllHonest, Readable, Wide,
           Plan.Sparing, Plan.AllSpare, Plan.Spares, Plan.Becomes, Plan.CannotStay;
      hide Placed;
      Bounds();
      ghost var was := View();
      done := AdvanceRows();
      Bounds();
      MoveToIdentity();
      ghost var announced := RemoveAndInsert();
      Bounds();
      JoinLogs(was, done, announced);
      JoinSparing(Goal(), was, done, announced);
      assert log == old(log) + (done + announced);
      done := done + announced;
    }

    /** Sets the cursors on the next old row that stays and the new row it becomes, or on both ends. */
    method MoveToIdentity()
      requires Running() && identity != []
      requires ti < tiEnd && si < |newRows| ==> !SameIdentity(oldRows[ti], newRows[si])
      modifies this`ti, this`si, this`changedTarget, this`changedSource
      ensures Placed() && startRow <= currentTarget <= changedTarget == ti <= tiEnd
      ensures currentSource <= changedSource == si <= |newRows|
      ensures ti == tiEnd <==> si == |newRows|
      ensures Goal().Valid() && forall t :: currentTarget <= t < ti ==> Goal().CannotStay(oldRows[t], currentSource)
      ensures ti < tiEnd ==> Goal().Becomes(oldRows[ti], si)
      ensures old(ti) < tiEnd || old(si) < |newRows| ==> ti + si > old(ti) + old(si)
    {
      hide Spliced, IsLookup, Wide, SameIdentity, Min,
           Plan.Sparing, Plan.AllSpare, Plan.Spares, Plan.Becomes, Plan.CannotStay;
      var s := IterateTargetToIdentitySource();
      si := s;
      if ti == tiEnd {
        changedTarget, changedSource := startRow + (tiEnd - startRow), |newRows|;
      } else {
        changedTarget, changedSource := ti, si;
      }
    }

    method RemoveAndInsert() returns (ghost done: seq<Announcement>)
      requires Placed() && Goal().Valid()
      requires currentTarget <= changedTarget <= tiEnd && currentSource <= changedSource <= |newRows|
      requires forall t :: currentTarget <= t < changedTarget ==> Goal().CannotStay(oldRows[t], currentSource)
      requires if changedSource == |newRows| then changedTarget == tiEnd
               else changedTarget < tiEnd && Goal().Becomes(oldRows[changedTarget], changedSource)
      modifies this`currentTarget, this`currentSource, this`toOldUpperOffset, this`modelSize, this`log
      ensures Placed() && currentTarget == changedTarget && currentSource == changedSource
      ensures log == old(log) + done && AllHonest(old(View()), done) && Readable(old(View()), done) == View()
      ensures Goal().Valid() && Goal().Sparing(old(View()), done)
    {
      hide Spliced, Honest, IsLookup, AllHonest, Readable, Wide,
           Plan.Sparing, Plan.AllSpare, Plan.Spares, Plan.Becomes, Plan.CannotStay;
      ghost var was := View();
      ghost var removed := RemoveOld();
      ghost var inserted := InsertNew();
      JoinLogs(was, removed, inserted);
      JoinSparing(Goal(), was, removed, inserted);
      assert log == old(log) + (removed + inserted);
      done := removed + inserted;
    }

    /** With nothing of the new rows and nothing gone of the old ones, the old rows are readable. */
    lemma PlacedAtStart()
      requires startRow == currentTarget <= tiEnd <= |oldRows| && currentSource == 0
      requires toNewMidOffset == 0 - startRow && toOldUpperOffset == 0 && modelSize == |oldRows|
      requires Wide(identity, oldRows[startRow..tiEnd], width) && Wide(identity, newRows, width)
      requires IsLookup(identity, newRows, width, lookup, |newRows|)
      ensures Placed() && View() == oldRows
    {
      hide Spliced, IsLookup, Wide;
      SplicedStart(oldRows, newRows, startRow);
    }

    /** Puts all the cursors in front of the slice. */
    method Begin(start: nat, count: nat, newRange: seq<Row>, ghost width_: nat)
      requires start < |oldRows| && identity != []
      requires Wide(identity, oldRows[start..Min(start + count, |oldRows|)], width_) && Wide(identity, newRange, width_)
      modifies this`width, this`startRow, this`newRows, this`si, this`ti, this`tiEnd, this`lookup, this`modelSize,
               this`toNewMidOffset, this`toOldUpperOffset, this`currentTarget, this`currentSource, this`changedTarget,
               this`changedSource
      ensures Running() && View() == oldRows
      ensures startRow == ti == start && si == 0 && newRows == newRange && tiEnd == Min(start + count, |oldRows|)
      ensures Goal() == Aim(start, count, newRange, width_)
    {
      hide Spliced, IsLookup, Wide, Placed;
      var index := PrepareLookup(identity, newRange, width_);
      width, lookup := width_, index;
      startRow := start;
      newRows := newRange;
      si, ti, tiEnd := 0, start, Min(start + count, |oldRows|);
      modelSize := |oldRows|;
      toNewMidOffset, toOldUpperOffset := 0 - start, 0;
      currentTarget, currentSource := start, 0;
      changedTarget, changedSource := start, 0;
      PlacedAtStart();
    }

    /** Round after round, until none of the old rows of the slice is left. */
    method Rounds() returns (ghost run: seq<Announcement>)
      requires Running() && identity != [] && (ti == tiEnd ==> si == |newRows|)
      modifies this`ti, this`si, this`currentTarget, this`currentSource, this`changedTarget, this`changedSource,
               this`toOldUpperOffset, this`modelSize, this`log
      ensures Running() && ti == tiEnd && si == |newRows|
      ensures log == old(log) + run && AllHonest(old(View()), run) && Readable(old(View()), run) == View()
      ensures Goal().Valid() && Goal().Sparing(old(View()), run)
    {
      hide Spliced, Honest, IsLookup, AllHonest, Readable, Wide, Placed,
           Plan.Sparing, Plan.AllSpare, Plan.Spares, Plan.Becomes, Plan.CannotStay;
      run := [];
      Bounds();
      HonestNone(View());
      while ti != tiEnd
        invariant Running() && Goal().Valid()
        invariant ti <= tiEnd && si <= |newRows|
        invariant startRow <= currentTarget <= |oldRows| && currentSource <= |newRows|
        invariant log == old(log) + run && AllHonest(old(View()), run) && Readable(old(View()), run) == View()
        invariant Goal().Sparing(old(View()), run)
        invariant ti == tiEnd ==> si == |newRows|
        decreases tiEnd - ti + |newRows| - si
      {
        ghost var done := Round();
        Bounds();
        JoinLogs(old(View()), run, done);
        JoinSparing(Goal(), old(View()), run, done);
        run := run + done;
      }
    }

    /** Migrates `count` rows from `start` on to the new rows. */
    method Migrate(start: nat, count: nat, newRange: seq<Row>, ghost width_: nat)
        returns (ok: bool, ghost run: seq<Announcement>)
      requires start < |oldRows| && count > 0 && newRange != [] && identity != []
      requires Wide(identity, oldRows[start..Min(start + count, |oldRows|)], width_) && Wide(identity, newRange, width_)
      modifies this
      ensures ok == !old(finalizationReady)
      ensures !ok ==> oldRows == old(oldRows) && log == old(log)
      ensures ok ==> finalizationReady && log == old(log) + run
      ensures ok ==> oldRows == old(oldRows)[..start] + newRange + old(oldRows)[Min(start + count, |old(oldRows)|)..]
      ensures ok ==> AllHonest(old(oldRows), run) && Readable(old(oldRows), run) == oldRows
      ensures ok ==> old(Aim(start, count, newRange, width_)).Sparing(old(oldRows), run)
    {
      hide Spliced, Honest, IsLookup, AllHonest, Readable, Wide,
           Plan.Sparing, Plan.AllSpare, Plan.Spares, Plan.Becomes, Plan.CannotStay;
      run := [];
      if finalizationReady {
        return false, run;
      }
      ghost var was := oldRows;
      Begin(start, count, newRange, width_);
      run := Rounds();
      SplicedEnd(was, newRows, start, tiEnd);
      oldRows := Replaced(start, count);
      finalizationReady := true;
      return true, run;
    }

    /** The old rows with the slice removed and the new rows inserted in its place. */
    method Replaced(start: nat, count: nat) returns (rows: seq<Row>)
      requires start <= |oldRows|
      ensures rows == oldRows[..start] + newRows + oldRows[Min(start + count, |oldRows|)..]
    {
      rows := oldRows[..start] + oldRows[Min(start + count, |oldRows|)..];
      assert rows[start..] == oldRows[Min(start + count, |oldRows|)..];
      rows := rows[..start] + newRows + rows[start..];
    }

    lemma Bounds()
      requires Placed()
      ensures startRow <= currentTarget <= tiEnd <= |oldRows| && currentSource <= |newRows|
      ensures Goal().Valid()
    {
    }

    lemma OldWidth()
      requires Placed()
      ensures forall i :: startRow <= i < tiEnd ==> |oldRows[i]| == width
      ensures forall i :: 0 <= i < |newRows| ==> |newRows[i]| == width
    {
      forall i | startRow <= i < tiEnd ensures |oldRows[i]| == width {
        assert oldRows[i] == oldRows[startRow..tiEnd][i - startRow];
      }
    }
  }

  lemma SliceOn<T>(s: seq<T>, from: nat, to: nat)
    requires from <= to < |s|
    ensures s[from..to + 1] == s[from..to] + [s[to]]
  {
  }

  lemma SplicedOverEqual(old_: seq<Row>, new_: seq<Row>, start: nat, source: nat, target: nat, n: nat)
    requires start <= target <= target + n <= |old_| && source + n <= |new_|
    requires old_[target..target + n] == new_[source..source + n]
    ensures Spliced(old_, new_, start, source + n, target + n) == Spliced(old_, new_, start, source, target)
  {
    assert new_[..source + n] == new_[..source] + new_[source..source + n];
    assert old_[target..] == old_[target..target + n] + old_[target + n..];
  }

  lemma NamedOn(changes: seq<Change>, change: Change)
    ensures forall c :: Named(changes, c) ==> Named(changes + [change], c)
    ensures change.Changed? ==> forall c :: change.left <= c <= change.right ==> Named(changes + [change], c)
  {
    var longer := changes + [change];
    forall c | Named(changes, c) ensures Named(longer, c) {
      var one :| one in changes && one.Changed? && one.left <= c <= one.right;
      assert one in longer;
    }
    assert change in longer;
  }

  lemma ChangedHonestly(
    old_: seq<Row>, new_: seq<Row>, start: nat, source: nat, target: nat, n: nat, changes: seq<Change>, mask: seq<bool>)
    requires start <= target <= target + n <= |old_| && source + n <= |new_| && n > 0
    requires forall t :: target <= t < target + n ==> Differs(old_[t], new_[source + t - target], mask)
    requires WithinMask(changes, mask, start + source, start + source + n - 1)
    requires forall c :: 0 <= c < |mask| && mask[c] ==> Named(changes, c)
    ensures var after := Spliced(old_, new_, start, source + n, target + n);
            Honest(Spliced(old_, new_, start, source, target),
                   Announcement(changes, Spliced(old_, new_, start, source, target), after))
  {
    hide Spliced, WithinMask, Named, Honest, Differs;
    var before, after := Spliced(old_, new_, start, source, target), Spliced(old_, new_, start, source + n, target + n);
    var top := start + source;
    SplicedAt(old_, new_, start, source, target, 0);
    SplicedAt(old_, new_, start, source + n, target + n, 0);
    forall i | 0 <= i < |before|
      ensures top <= i <= top + n - 1 ==> Differs(before[i], after[i], mask)
      ensures !(top <= i <= top + n - 1) ==> before[i] == after[i]
    {
      SplicedAt(old_, new_, start, source, target, i);
      SplicedAt(old_, new_, start, source + n, target + n, i);
      if top <= i <= top + n - 1 {
        assert Differs(old_[target + i - top], new_[i - start], mask);
      }
    }
    HonestChange(before, after, changes, mask, top, top + n - 1);
  }

  lemma BoundsOf(before: seq<Row>, a: Announcement)
    requires Honest(before, a)
    ensures forall change <- a.changes :: InBounds(change, before, a.readable)
  {
  }

  lemma DiffersIf(lhs: Row, rhs: Row, mask: seq<bool>)
    ensures Differs(lhs, rhs, mask) <==>
            && |lhs| == |rhs| && |mask| == Min(|lhs|, |rhs|)
            && forall c :: 0 <= c < |mask| ==> (mask[c] <==> lhs[c] != rhs[c])
  {
  }

  lemma HonestOne(rows: seq<Row>, a: Announcement)
    requires Honest(rows, a)
    ensures AllHonest(rows, [a]) && Readable(rows, [a]) == a.readable
  {
    hide Honest;
    LogOn(rows, [], a);
    assert [] + [a] == [a];
  }

  lemma RemovedHonestly(old_: seq<Row>, new_: seq<Row>, start: nat, source: nat, target: nat, n: nat)
    requires start <= target <= target + n <= |old_| && source <= |new_| && n > 0
    ensures var after := Spliced(old_, new_, start, source, target + n);
            Honest(Spliced(old_, new_, start, source, target),
                   Announcement([Removed(start + source, start + source + n - 1)], after, after))
  {
    hide Honest;
    var before, after := Spliced(old_, new_, start, source, target), Spliced(old_, new_, start, source, target + n);
    assert old_[target..] == old_[target..target + n] + old_[target + n..];
    HonestRemoval(before, after, start + source, start + source + n - 1);
  }

  lemma InsertedHonestly(old_: seq<Row>, new_: seq<Row>, start: nat, source: nat, target: nat, n: nat)
    requires start <= target <= |old_| && source + n <= |new_| && n > 0
    ensures var after := Spliced(old_, new_, start, source + n, target);
            Honest(Spliced(old_, new_, start, source, target),
                   Announcement([Inserted(start + source, start + source + n - 1)], after, after))
  {
    hide Honest;
    var before, after := Spliced(old_, new_, start, source, target), Spliced(old_, new_, start, source + n, target);
    assert new_[..source + n] == new_[..source] + new_[source..source + n];
    assert after[start + source..start + source + n] == new_[source..source + n];
    HonestInsertion(before, after, start + source, start + source + n - 1);
  }

  lemma HonestNone(rows: seq<Row>)
    ensures AllHonest(rows, []) && Readable(rows, []) == rows
    ensures forall plan: Plan :: plan.Valid() ==> plan.Sparing(rows, [])
  {
  }

  lemma {:induction false} JoinLogs(rows: seq<Row>, a: seq<Announcement>, b: seq<Announcement>)
    requires AllHonest(Readable(rows, a), b)
    ensures AllHonest(rows, a + b) <==> AllHonest(rows, a)
    ensures Readable(rows, a + b) == Readable(Readable(rows, a), b)
  {
    hide Honest;
    if b == [] {
      assert a + b == a;
    } else {
      var front := b[..|b| - 1];
      assert (a + b)[..|a + b| - 1] == a + front;
      JoinLogs(rows, a, front);
    }
  }

  lemma SplicedStart(old_: seq<Row>, new_: seq<Row>, start: nat)
    requires start <= |old_|
    ensures Spliced(old_, new_, start, 0, start) == old_
  {
  }

  lemma SplicedEnd(old_: seq<Row>, new_: seq<Row>, start: nat, end: nat)
    requires start <= end <= |old_|
    ensures Spliced(old_, new_, start, |new_|, end) == old_[..start] + new_ + old_[end..]
  {
    assert new_[..|new_|] == new_;
  }
}
