/**
 The streaming part of the updater module: rows are fetched block by block, each block asked for with a filter
 behind the last row there is, until the limit or the end of the result is reached.
 */
module Streaming {
  import opened Arithmetic
  import opened Options
  import opened StreamFilter

  const INT_BOUND := 0x8000_0000
  const DEFAULT_BLOCK_SIZE := 200
  /** What a limit is set to for no limit, by the documentation. */
  const NO_LIMIT := 0

  /** A 32-bit integer read as unsigned. */
  function Unsigned(x: int): int {
    if x < 0 then x + 2 * INT_BOUND else x
  }

  // ----- the backend -----

  /** The rows of an ordered result for which a filter holds. */
  function Passing<V(==)>(less: (V, V) -> bool, all: seq<Row<V>>, f: Filter<V>): seq<Row<V>> {
    if all == [] then []
    else (if Eval(less, f, all[0]) == Yes then [all[0]] else []) + Passing(less, all[1..], f)
  }

  /** The first rows, as LIMIT in the text of a query cuts them: a limit of 0 leaves none, and -1 is not written. */
  function Limited<V>(rows: seq<Row<V>>, limit: int): seq<Row<V>> {
    if 0 <= limit < |rows| then rows[..limit] else rows
  }

  /** What the query answers: the first rows of the result that pass the filter, if there is one. */
  function Answer<V(==)>(less: (V, V) -> bool, all: seq<Row<V>>, f: Option<Filter<V>>, limit: int): seq<Row<V>> {
    Limited(if f.None? then all else Passing(less, all, f.value), limit)
  }

  ghost predicate Ordered<V(!new)>(less: (V, V) -> bool, obs: seq<OrderBy>, all: seq<Row<V>>) {
    forall i, j :: 0 <= i < j < |all| ==> After(less, obs, all[j], all[i])
  }

  /** A column of the identity of rows, ascending, for each one in front of `n`. */
  function IdentityOrderings(identity: seq<bool>, n: nat): (obs: seq<OrderBy>)
    requires n <= |identity|
    ensures forall o :: o in obs <==> o.ascending && 0 <= o.col < n && identity[o.col]
    ensures forall i, j :: 0 <= i < j < |obs| ==> obs[i].col < obs[j].col
  {
    if n == 0 then []
    else IdentityOrderings(identity, n - 1) + if identity[n - 1] then [OrderBy(n - 1, true)] else []
  }

  /** Attaching adds the identity columns behind the orderings of the query. */
  method AddIdentityOrderings(obs: seq<OrderBy>, identity: seq<bool>) returns (ordering: seq<OrderBy>)
    ensures ordering == obs + IdentityOrderings(identity, |identity|)
  {
    ordering := obs;
    for i := 0 to |identity|
      invariant ordering == obs + IdentityOrderings(identity, i)
    {
      if identity[i] {
        ordering := ordering + [OrderBy(i, true)];
      }
    }
  }

  /** Rows sorted with the identity columns added are strictly ordered when no two have the same identity. */
  lemma {:induction false} IdentityMakesUnique<V(!new)>(
    less: (V, V) -> bool, obs: seq<OrderBy>, identity: seq<bool>, all: seq<Row<V>>)
    requires TotalOrder(less)
    requires var ordering := obs + IdentityOrderings(identity, |identity|);
             forall i, j :: 0 <= i < j < |all| ==> !After(less, ordering, all[i], all[j])
    requires forall i, j :: 0 <= i < j < |all| ==>
               exists c :: 0 <= c < |identity| && identity[c] && Cell(all[i], c) != Cell(all[j], c)
    ensures Ordered(less, obs + IdentityOrderings(identity, |identity|), all)
  {
    var ordering := obs + IdentityOrderings(identity, |identity|);
    forall i, j | 0 <= i < j < |all|
      ensures After(less, ordering, all[j], all[i])
    {
      var c :| 0 <= c < |identity| && identity[c] && Cell(all[i], c) != Cell(all[j], c);
      assert OrderBy(c, true) in IdentityOrderings(identity, |identity|);
      assert OrderBy(c, true) in ordering;
      AfterIsTotal(less, ordering, all[j], all[i]);
    }
  }

  ghost predicate NoneHidden<V(!new)>(obs: seq<OrderBy>, all: seq<Row<V>>, resource: int -> bool) {
    forall i, j :: 0 <= i < j < |all| ==> !Hidden(obs, all[j], all[i], resource)
  }

  lemma {:induction false} PassingJoin<V(!new)>(
    less: (V, V) -> bool, a: seq<Row<V>>, b: seq<Row<V>>, f: Filter<V>)
    ensures Passing(less, a + b, f) == Passing(less, a, f) + Passing(less, b, f)
  {
    hide Eval;
    if a == [] {
      assert a + b == b;
    } else {
      assert (a + b)[1..] == a[1..] + b && (a + b)[0] == a[0];
      PassingJoin(less, a[1..], b, f);
    }
  }

  lemma {:induction false} PassingSame<V(!new)>(less: (V, V) -> bool, all: seq<Row<V>>, f: Filter<V>, passes: bool)
    requires forall r <- all :: Eval(less, f, r) == Yes <==> passes
    ensures Passing(less, all, f) == if passes then all else []
  {
    hide Eval;
    if all != [] {
      assert all[0] in all;
      PassingSame(less, all[1..], f, passes);
    }
  }

  /** From the first row that passes on, the rows up to `m` are answered, if none of them is passed over. */
  lemma PassingStarts<V(!new)>(less: (V, V) -> bool, all: seq<Row<V>>, f: Filter<V>, n: nat, m: nat)
    requires n <= m <= |all|
    requires forall i :: 0 <= i < m ==> (Eval(less, f, all[i]) == Yes <==> n <= i)
    ensures Passing(less, all, f) == all[n..m] + Passing(less, all[m..], f)
  {
    hide *;
    PassingSame(less, all[..n], f, false);
    PassingSame(less, all[n..m], f, true);
    PassingJoin(less, all[..n], all[n..m], f);
    PassingJoin(less, all[..m], all[m..], f);
    assert all[..n] + all[n..m] == all[..m];
    assert all[..m] + all[m..] == all;
  }

  lemma {:induction false} PassingOnly<V(!new)>(less: (V, V) -> bool, all: seq<Row<V>>, f: Filter<V>)
    ensures forall r <- Passing(less, all, f) :: r in all && Eval(less, f, r) == Yes
  {
    if all != [] {
      PassingOnly(less, all[1..], f);
    }
  }

  lemma {:induction false} PassingOrdered<V(!new)>(
    less: (V, V) -> bool, obs: seq<OrderBy>, all: seq<Row<V>>, f: Filter<V>)
    requires Ordered(less, obs, all)
    ensures Ordered(less, obs, Passing(less, all, f))
  {
    if all != [] {
      var rest := Passing(less, all[1..], f);
      PassingOrdered(less, obs, all[1..], f);
      PassingOnly(less, all[1..], f);
      forall j | 0 <= j < |rest|
        ensures After(less, obs, rest[j], all[0])
      {
        assert rest[j] in all[1..];
        var k :| 0 <= k < |all[1..]| && all[1..][k] == rest[j];
      }
    }
  }

  /** Where the `m`-th row that passes is. */
  lemma {:induction false} PassingPlace<V(!new)>(less: (V, V) -> bool, all: seq<Row<V>>, f: Filter<V>, n: nat, m: nat)
    returns (k: nat)
    requires forall i :: 0 <= i < |all| && Eval(less, f, all[i]) == Yes ==> n <= i
    requires 0 < m <= |Passing(less, all, f)|
    ensures n + m <= k <= |all| && all[k - 1] == Passing(less, all, f)[m - 1]
  {
    if Eval(less, f, all[0]) == Yes && m == 1 {
      k := 1;
    } else {
      var behind := if n == 0 then 0 else n - 1;
      k := PassingPlace(less, all[1..], f, behind, if Eval(less, f, all[0]) == Yes then m - 1 else m);
      k := k + 1;
    }
  }

  /** The block behind the first `n` rows is as it should be exactly when none of it is hidden behind row `n` - 1. */
  lemma NextComplete<V(!new)>(
    less: (V, V) -> bool, obs: seq<OrderBy>, all: seq<Row<V>>, resource: int -> bool, n: nat, size: int)
    requires TotalOrder(less) && Ordered(less, obs, all) && 0 < n <= |all| && 0 <= size
    ensures var m := Min(n + size, |all|);
            Answer(less, all, Some(Built(obs, all[n - 1], resource)), size) == all[n..m] <==>
            forall i :: n <= i < m ==> !Hidden(obs, all[i], all[n - 1], resource)
  {
    var m := Min(n + size, |all|);
    var last := all[n - 1];
    var f := Built(obs, last, resource);
    forall i | 0 <= i < |all|
      ensures Eval(less, f, all[i]) == Yes <==> n <= i && !Hidden(obs, all[i], last, resource)
    {
      FilterMeans(less, obs, last, resource, all[i]);
      AfterIsStrict(less, obs, all[i], last);
    }
    if forall i :: n <= i < m ==> !Hidden(obs, all[i], last, resource) {
      PassingStarts(less, all, f, n, m);
    } else {
      var i :| n <= i < m && Hidden(obs, all[i], last, resource);
      PassingOnly(less, all, f);
      assert all[i] == all[n..m][i - n];
    }
  }

  // ----- the rows there are -----

  /** The rows are some of the result in its order, the last of them in front of the place reached. */
  ghost predicate Chosen<V(!new)>(
    less: (V, V) -> bool, obs: seq<OrderBy>, all: seq<Row<V>>, rows: seq<Row<V>>, reached: int) {
    && Ordered(less, obs, rows) && (forall r <- rows :: r in all)
    && |rows| <= reached <= |all|
    && (if rows == [] then reached == 0 else all[reached - 1] == rows[|rows| - 1])
  }

  /** What the next block is asked for with: nothing at first, or else to come behind the last row. */
  function NextFilter<V>(obs: seq<OrderBy>, rows: seq<Row<V>>, resource: int -> bool): Option<Filter<V>> {
    if rows == [] then None else Some(Built(obs, rows[|rows| - 1], resource))
  }

  /** What is answered behind the last row is in order, and comes after all rows there are. */
  lemma AnsweredInOrder<V(!new)>(
    less: (V, V) -> bool, obs: seq<OrderBy>, all: seq<Row<V>>, resource: int -> bool,
    rows: seq<Row<V>>, piece: seq<Row<V>>)
    requires TotalOrder(less) && Ordered(less, obs, all) && Ordered(less, obs, rows) && rows != []
    requires piece <= Passing(less, all, Built(obs, rows[|rows| - 1], resource))
    ensures Ordered(less, obs, rows + piece) && forall r <- piece :: r in all
  {
    var last := rows[|rows| - 1];
    var f := Built(obs, last, resource);
    PassingOnly(less, all, f);
    PassingOrdered(less, obs, all, f);
    forall i, j | 0 <= i < |rows| && 0 <= j < |piece|
      ensures After(less, obs, piece[j], rows[i])
    {
      assert piece[j] == Passing(less, all, f)[j];
      FilterMeans(less, obs, last, resource, piece[j]);
      if i < |rows| - 1 {
        AfterChains(less, obs, piece[j], last, rows[i]);
      }
    }
  }

  lemma TakenBehind<V(!new)>(
    less: (V, V) -> bool, obs: seq<OrderBy>, all: seq<Row<V>>, resource: int -> bool,
    rows: seq<Row<V>>, reached: int, piece: seq<Row<V>>) returns (k: int)
    requires TotalOrder(less) && Ordered(less, obs, all) && Chosen(less, obs, all, rows, reached)
    requires rows != [] && piece != [] && piece <= Passing(less, all, Built(obs, rows[|rows| - 1], resource))
    ensures Chosen(less, obs, all, rows + piece, k) && reached + |piece| <= k
  {
    var last := rows[|rows| - 1];
    var f := Built(obs, last, resource);
    AnsweredInOrder(less, obs, all, resource, rows, piece);
    forall i | 0 <= i < |all| && Eval(less, f, all[i]) == Yes
      ensures reached <= i
    {
      FilterMeans(less, obs, last, resource, all[i]);
      AfterIsStrict(less, obs, all[i], last);
    }
    k := PassingPlace(less, all, f, reached, |piece|);
  }

  lemma TakenFirst<V(!new)>(
    less: (V, V) -> bool, obs: seq<OrderBy>, all: seq<Row<V>>, rows: seq<Row<V>>)
    requires Ordered(less, obs, all) && rows <= all
    ensures Chosen(less, obs, all, rows, |rows|)
  {
    hide After;
    forall i, j | 0 <= i < j < |rows|
      ensures After(less, obs, rows[j], rows[i])
    {
      assert rows[i] == all[i] && rows[j] == all[j];
    }
    forall r | r in rows
      ensures r in all
    {
      var i :| 0 <= i < |rows| && rows[i] == r;
      assert all[i] == r;
    }
  }

  /** Whatever is passed over, a block keeps the rows in order, and the place moves on with it. */
  lemma Taken<V(!new)>(
    less: (V, V) -> bool, obs: seq<OrderBy>, all: seq<Row<V>>, resource: int -> bool,
    rows: seq<Row<V>>, reached: int, size: int) returns (k: int)
    requires TotalOrder(less) && Ordered(less, obs, all) && Chosen(less, obs, all, rows, reached) && 0 <= size
    ensures var piece := Answer(less, all, NextFilter(obs, rows, resource), size);
            |piece| <= size && Chosen(less, obs, all, rows + piece, k) && reached + |piece| <= k
  {
    hide After, Eval, Built, Passing, Ordered;
    var piece := Answer(less, all, NextFilter(obs, rows, resource), size);
    if piece == [] {
      assert rows + piece == rows;
      k := reached;
    } else if rows == [] {
      assert rows + piece == piece;
      TakenFirst(less, obs, all, piece);
      k := |piece|;
    } else {
      k := TakenBehind(less, obs, all, resource, rows, reached, piece);
    }
  }

  /** Rows that are the first of the result end where the place is. */
  lemma ReachedIsLength<V(!new)>(
    less: (V, V) -> bool, obs: seq<OrderBy>, all: seq<Row<V>>, rows: seq<Row<V>>, reached: int)
    requires TotalOrder(less) && Ordered(less, obs, all) && Chosen(less, obs, all, rows, reached)
    requires rows == all[..|rows|]
    ensures reached == |rows|
  {
    if rows != [] && reached != |rows| {
      AfterIsStrict(less, obs, all[reached - 1], all[|rows| - 1]);
    }
  }

  // ----- what is lost -----

  /** Where the block begins that row `i` belongs to, when one block has been asked for behind `n` rows. */
  function BlockStart(n: int, size: int, blockSize: int, i: int): (start: int)
    requires 0 < blockSize
    requires 0 <= size
    ensures n <= i ==> n <= start <= i
    decreases i - n - size
  {
    if i < n + size then n else BlockStart(n + size, blockSize, blockSize, i)
  }

  /** Behind the first block the others begin at multiples of the block size. */
  lemma {:induction false} BlockStartIs(n: int, size: int, blockSize: int, i: int)
    requires 0 <= size && 0 < blockSize && n + size <= i
    ensures BlockStart(n, size, blockSize, i) == i - (i - n - size) % blockSize
    decreases i - n - size
  {
    var x := i - n - size;
    if blockSize <= x {
      BlockStartIs(n + size, blockSize, blockSize, i);
      DividedBy(x, blockSize, (x - blockSize) / blockSize + 1, (x - blockSize) % blockSize);
    }
  }

  predicate Shown<V(==)>(obs: seq<OrderBy>, all: seq<Row<V>>, resource: int -> bool, i: int, start: int)
    requires 0 <= start <= i < |all|
  {
    0 < start ==> !Hidden(obs, all[i], all[start - 1], resource)
  }

  /** No row from `n` to the goal is hidden from the last row in front of its block. */
  ghost predicate AllShown<V>(obs: seq<OrderBy>, all: seq<Row<V>>, resource: int -> bool,
                              n: int, size: int, blockSize: int, goal: int)
    requires 0 <= n && 0 <= size && goal <= |all| && 0 < blockSize
  {
    forall i :: n <= i < goal ==> Shown(obs, all, resource, i, BlockStart(n, size, blockSize, i))
  }

  lemma ShownWhenNoneHidden<V(!new)>(
    obs: seq<OrderBy>, all: seq<Row<V>>, resource: int -> bool, n: int, size: int, blockSize: int, goal: int)
    requires NoneHidden(obs, all, resource) && 0 <= n && 0 <= size && goal <= |all| && 0 < blockSize
    ensures AllShown(obs, all, resource, n, size, blockSize, goal)
  {
  }

  lemma ShownBlockByBlock<V>(
    obs: seq<OrderBy>, all: seq<Row<V>>, resource: int -> bool,
    n: int, size: int, next: int, blockSize: int, goal: int)
    requires 0 <= n && 0 <= size && n + size <= goal <= |all|
    requires 0 < next <= blockSize && (next < blockSize ==> goal <= n + size + next)
    ensures AllShown(obs, all, resource, n, size, blockSize, goal) <==>
              && AllShown(obs, all, resource, n, size, blockSize, n + size)
              && AllShown(obs, all, resource, n + size, next, blockSize, goal)
  {
    forall i | n <= i < goal
      ensures Shown(obs, all, resource, i, BlockStart(n, size, blockSize, i)) <==>
              if i < n + size then Shown(obs, all, resource, i, n)
              else Shown(obs, all, resource, i, BlockStart(n + size, next, blockSize, i))
    {
    }
    if AllShown(obs, all, resource, n, size, blockSize, goal) {
      var from := n + size;
      forall i | from <= i < goal
        ensures Shown(obs, all, resource, i, BlockStart(from, next, blockSize, i))
      {
        assert Shown(obs, all, resource, i, BlockStart(n, size, blockSize, i));
      }
    }
  }

  /** A block continues the first rows of the result exactly when none of its rows is hidden. */
  lemma BlockExact<V(!new)>(
    less: (V, V) -> bool, obs: seq<OrderBy>, all: seq<Row<V>>, resource: int -> bool,
    n: nat, size: int, blockSize: int)
    requires TotalOrder(less) && Ordered(less, obs, all) && n <= |all| && 0 <= size && 0 < blockSize
    ensures var m := Min(n + size, |all|);
            Answer(less, all, NextFilter(obs, all[..n], resource), size) == all[n..m] <==>
            AllShown(obs, all, resource, n, size, blockSize, m)
  {
    hide Built, Passing, Hidden, Ordered;
    var m := Min(n + size, |all|);
    if n > 0 {
      NextComplete(less, obs, all, resource, n, size);
      forall i | n <= i < m
        ensures Shown(obs, all, resource, i, BlockStart(n, size, blockSize, i)) <==>
                !Hidden(obs, all[i], all[n - 1], resource)
      {
      }
    } else {
      assert all[..0] == [] && all[0..m] == Limited(all, size);
    }
  }

  /** The rows will be the first of the result, up to the goal: with a block of a size on its way, or none. */
  ghost predicate WillBe<V>(obs: seq<OrderBy>, all: seq<Row<V>>, resource: int -> bool, blockSize: int,
                            rows: seq<Row<V>>, onItsWay: Option<int>, goal: int)
    requires 0 < blockSize
  {
    && |rows| <= goal <= |all| && rows == all[..|rows|]
    && (if onItsWay.None? then |rows| == goal
        else 0 <= onItsWay.value && AllShown(obs, all, resource, |rows|, onItsWay.value, blockSize, goal))
  }

  lemma GoesOn<V>(all: seq<Row<V>>, rows: seq<Row<V>>, piece: seq<Row<V>>, m: nat)
    requires |rows| <= m <= |all| && rows == all[..|rows|]
    ensures rows + piece == all[..m] <==> piece == all[|rows|..m]
  {
    assert all[..m] == rows + all[|rows|..m];
    assert (rows + piece)[|rows|..] == piece;
  }

  lemma FewerShown<V>(obs: seq<OrderBy>, all: seq<Row<V>>, resource: int -> bool,
                      n: int, size: int, blockSize: int, m: int, goal: int)
    requires 0 <= n && 0 <= size && m <= goal <= |all| && 0 < blockSize
    requires AllShown(obs, all, resource, n, size, blockSize, goal)
    ensures AllShown(obs, all, resource, n, size, blockSize, m)
  {
  }

  lemma LastBlock<V(!new)>(
    less: (V, V) -> bool, obs: seq<OrderBy>, all: seq<Row<V>>, resource: int -> bool, blockSize: int,
    rows: seq<Row<V>>, size: int, goal: int)
    requires TotalOrder(less) && Ordered(less, obs, all) && 0 <= size && 0 < blockSize
    requires Min(|rows| + size, |all|) <= goal <= |all|
    requires var piece := Answer(less, all, NextFilter(obs, rows, resource), size);
             |piece| < size || goal == Min(|rows| + size, |all|)
    ensures var piece := Answer(less, all, NextFilter(obs, rows, resource), size);
            WillBe(obs, all, resource, blockSize, rows + piece, None, goal) <==>
            WillBe(obs, all, resource, blockSize, rows, Some(size), goal)
  {
    hide Answer, NextFilter, AllShown, Ordered;
    var piece := Answer(less, all, NextFilter(obs, rows, resource), size);
    var n := |rows|;
    if n <= |all| && rows == all[..n] {
      var m := Min(n + size, |all|);
      BlockExact(less, obs, all, resource, n, size, blockSize);
      GoesOn(all, rows, piece, m);
      if m < goal && AllShown(obs, all, resource, n, size, blockSize, goal) {
        FewerShown(obs, all, resource, n, size, blockSize, m, goal);
      }
    } else {
      assert (rows + piece)[..n] == rows;
    }
  }

  lemma InnerBlock<V(!new)>(
    less: (V, V) -> bool, obs: seq<OrderBy>, all: seq<Row<V>>, resource: int -> bool, blockSize: int,
    rows: seq<Row<V>>, size: int, next: int, goal: int)
    requires TotalOrder(less) && Ordered(less, obs, all) && 0 <= size
    requires |rows| + size <= goal <= |all|
    requires 0 < next <= blockSize && (next < blockSize ==> goal <= |rows| + size + next)
    requires |Answer(less, all, NextFilter(obs, rows, resource), size)| == size
    ensures var piece := Answer(less, all, NextFilter(obs, rows, resource), size);
            WillBe(obs, all, resource, blockSize, rows + piece, Some(next), goal) <==>
            WillBe(obs, all, resource, blockSize, rows, Some(size), goal)
  {
    hide Answer, NextFilter, AllShown, Ordered;
    var piece := Answer(less, all, NextFilter(obs, rows, resource), size);
    var n := |rows|;
    if rows == all[..n] {
      BlockExact(less, obs, all, resource, n, size, blockSize);
      ShownBlockByBlock(obs, all, resource, n, size, next, blockSize, goal);
      GoesOn(all, rows, piece, n + size);
    } else {
      assert (rows + piece)[..n] == rows;
    }
  }

  /** The two states of a stream that can be switched. */
  datatype Flag = Streaming | Running

  class Updater<V(==, !new)> {
    const less: (V, V) -> bool
    const obs: seq<OrderBy>
    const resource: int -> bool
    /** The result of the whole query, in order, as the backend has it throughout. */
    const all: seq<Row<V>>
    /** The attributes of the model. */
    var firstBlockSize: int
    var blockSize: int
    var limit: int

    var rows: seq<Row<V>>
    var remaining: int
    var streaming: bool
    var running: bool
    var seenEndOfStream: bool
    /** The block on its way, and the size it was asked for with. */
    var update: Option<(seq<Row<V>>, int)>
    /** How far in the result the last row is. */
    ghost var reached: int

    ghost predicate Fits()
      reads `firstBlockSize, `blockSize, `limit
    {
      && TotalOrder(less) && Ordered(less, obs, all) && |all| < INT_BOUND
      && 0 <= blockSize < INT_BOUND && 0 <= firstBlockSize < INT_BOUND
      && -INT_BOUND <= limit - |all| && limit < INT_BOUND
    }

    /** The rows there are, are rows of the result in its order; its first, if none is ever hidden. */
    ghost predicate InOrder()
      reads `rows, `reached, `firstBlockSize, `blockSize, `limit
    {
      && Fits() && Chosen(less, obs, all, rows, reached)
      && (NoneHidden(obs, all, resource) ==> rows == all[..|rows|])
    }

    /** What is left of the limit, or a negative number that no block size reaches when read as unsigned. */
    ghost predicate Counted()
      reads `rows, `remaining
    {
      -INT_BOUND <= remaining - (|all| - |rows|) && remaining < INT_BOUND
    }

    ghost predicate Valid()
      reads this
    {
      && InOrder() && Counted()
      && (streaming ==> !seenEndOfStream)
      && (seenEndOfStream && NoneHidden(obs, all, resource) ==> reached == |all|)
      && (!streaming && !seenEndOfStream ==> remaining < 0)
      && (running <==> update.Some?)
      && (update.Some? ==>
            && !seenEndOfStream && 0 <= update.value.1
            && update.value.0 == Answer(less, all, NextFilter(obs, rows, resource), update.value.1))
    }

    /**
     How many rows there are to be when the streaming stops: as many as the limit leaves. Without streaming it is
     only the block on its way. A block on its way that is larger than what the limit leaves runs past the limit, and
     then nothing stops the streaming before the end.
     */
    ghost function Goal(): int
      reads `rows, `remaining, `streaming, `update
    {
      if !streaming then (if update.None? then |rows| else Min(|rows| + update.value.1, |all|))
      else if 0 <= remaining && (update.Some? ==> update.value.1 <= remaining) then Min(|rows| + remaining, |all|)
      else |all|
    }

    /** No row up to the goal is lost, neither so far nor by the blocks to come. */
    ghost predicate Complete(goal: int)
      requires 0 < blockSize
      reads `rows, `update, `blockSize
    {
      WillBe(obs, all, resource, blockSize, rows, if update.None? then None else Some(update.value.1), goal)
    }

    /** Attached to a model with the streaming strategy; the attributes may be missing or make no sense. */
    constructor (less: (V, V) -> bool, obs: seq<OrderBy>, resource: int -> bool, all: seq<Row<V>>,
                 firstBlockSize: int, blockSize: int, limit: int)
      requires TotalOrder(less) && Ordered(less, obs, all)
      requires -INT_BOUND <= firstBlockSize < INT_BOUND && -INT_BOUND <= blockSize < INT_BOUND
      requires -INT_BOUND <= limit < INT_BOUND
      requires |all| < INT_BOUND && (limit < 0 ==> -INT_BOUND <= limit - |all|)
      ensures Valid() && this.all == all && rows == [] && streaming && update.Some?
      ensures this.less == less && this.obs == obs && this.resource == resource
      ensures this.limit == if limit == NO_LIMIT then -1 else limit
      ensures this.blockSize == if blockSize <= 0 then DEFAULT_BLOCK_SIZE else blockSize
      ensures this.firstBlockSize == if firstBlockSize <= 0 then this.blockSize else firstBlockSize
      ensures Goal() == if 0 < limit < |all| then limit else |all|
      ensures Complete(Goal()) <==>
              AllShown(obs, all, resource, 0, this.firstBlockSize, this.blockSize, Goal())
    {
      this.less, this.obs, this.resource, this.all := less, obs, resource, all;
      var size := if blockSize <= 0 then DEFAULT_BLOCK_SIZE else blockSize;
      this.blockSize := size;
      this.firstBlockSize := if firstBlockSize <= 0 then size else firstBlockSize;
      this.limit := if limit == NO_LIMIT then -1 else limit;
      rows, reached, update, running, seenEndOfStream := [], 0, None, false, false;
      // enableStreaming
      remaining := if limit == NO_LIMIT then -1 else limit;
      streaming := true;
      new;
      var ok := InitiateStreamPiece(true);
    }

    /** Behind a last row that is unbound in all ordering columns, all descending, the result has ended. */
    lemma NothingBehind()
      requires InOrder() && rows != [] && AllDescendingUnbound(obs, rows[|rows| - 1])
      ensures reached == |all|
    {
      hide AllDescendingUnbound, NoneHidden;
      if reached < |all| {
        NoneFollows(less, obs, all[reached - 1], all[reached]);
      }
    }

    /** Asks for the rows behind the last one, unless it is clear that there are none. */
    method InitiateStreamPiece(firstInStream: bool) returns (ok: bool)
      requires InOrder() && Counted() && (update.None? || Valid())
      requires if streaming then !seenEndOfStream else seenEndOfStream || remaining < 0
      modifies this`update, this`running
      ensures ok ==> Valid() && update.Some?
      ensures ok && old(update).Some? ==> update == old(update)
      ensures ok && old(update).None? ==> update.value.1 == BlockLimit(firstInStream)
      ensures !ok ==> update == old(update) && running == old(running)
      ensures ok && old(update).None? && rows != [] ==> !AllDescendingUnbound(obs, rows[|rows| - 1])
      ensures !ok ==> seenEndOfStream || (update.None? && rows != [] && reached == |all|)
      ensures !ok && !seenEndOfStream ==> AllDescendingUnbound(obs, rows[|rows| - 1])
    {
      hide NoneHidden, Ordered, Built, Answer, AllDescendingUnbound;
      if seenEndOfStream {
        return false;
      }
      if update.Some? {
        return true;
      }
      var filter: Option<Filter<V>> := None;
      if rows != [] {
        var last := rows[|rows| - 1];
        var f := BuildFilter(obs, last, resource);
        NeverWhen(obs, last, resource);
        if f.Never? {
          NothingBehind();
          return false;
        }
        filter := Some(f);
      }
      var blockLimit := if firstInStream then firstBlockSize else blockSize;
      if Unsigned(remaining) < Unsigned(blockLimit) {
        blockLimit := remaining;
      }
      update := Some((Answer(less, all, filter, blockLimit), blockLimit));
      running := true;
      ok := true;
    }

    /** The size of the next block: what is configured, but no more than the limit leaves. */
    function BlockLimit(firstInStream: bool): int
      reads `remaining, `firstBlockSize, `blockSize
    {
      var size := if firstInStream then firstBlockSize else blockSize;
      if 0 <= remaining < size then remaining else size
    }

    method EndOfStream()
      requires InOrder() && Counted() && update.None?
      requires NoneHidden(obs, all, resource) ==> reached == |all|
      modifies this`seenEndOfStream, this`streaming, this`running
      ensures Valid() && !streaming && seenEndOfStream
    {
      seenEndOfStream := true;
      streaming, running := false, false;
    }

    /** Whether no row is lost is decided block by block, and the goal stays as long as the streaming does. */
    method UpdateModel()
      requires Valid() && update.Some?
      modifies `rows, `reached, `remaining, `streaming, `running, `update, `seenEndOfStream
      ensures Valid() && rows == old(rows) + old(update).value.0
      ensures reached >= old(reached)
      ensures streaming ==> update.Some? && update.value.1 == BlockLimit(false) && Goal() == old(Goal())
      ensures streaming ==> remaining == old(remaining) - old(update).value.1 != 0
      ensures streaming && 0 < old(update).value.1 ==> reached > old(reached)
      ensures !streaming ==> update.None?
      ensures old(streaming) || !streaming
      ensures |old(update).value.0| == old(update).value.1 && (!old(streaming) || old(remaining) == old(update).value.1)
              ==> !streaming && !seenEndOfStream
      ensures old(update).value.1 == 0 && old(streaming) ==>
                (!streaming <==> old(remaining) == 0 || (rows != [] && AllDescendingUnbound(obs, rows[|rows| - 1])))
      ensures 0 < blockSize ==> (Complete(old(Goal())) <==> old(Complete(Goal())))
    {
      hide Ordered, Passing, Limited, AllShown, BlockStart, NoneHidden, Built, AllDescendingUnbound;
      ghost var goal := Goal();
      var (piece, requested) := update.value;
      ghost var before := rows;
      BlockKeepsPrefix(requested);
      reached := Taken(less, obs, all, resource, rows, reached, requested);
      update := None;
      rows := rows + piece;
      if |piece| < requested {
        EndOfStream();
        if 0 < blockSize {
          LastBlock(less, obs, all, resource, blockSize, before, requested, goal);
        }
      } else {
        ReceivedStreamPiece(|piece|);
        if 0 < blockSize {
          if streaming {
            InnerBlock(less, obs, all, resource, blockSize, before, requested, update.value.1, goal);
          } else if seenEndOfStream {
            InnerBlock(less, obs, all, resource, blockSize, before, requested, blockSize, goal);
            NothingLeft(goal);
          } else {
            LastBlock(less, obs, all, resource, blockSize, before, requested, goal);
          }
        }
      }
    }

    /** With nothing hidden no row is lost. */
    lemma WillComplete()
      requires Valid() && 0 < blockSize && NoneHidden(obs, all, resource) && update.Some?
      ensures Complete(Goal())
    {
      hide NoneHidden, Ordered, AllShown;
      ShownWhenNoneHidden(obs, all, resource, |rows|, update.value.1, blockSize, Goal());
    }

    /** A block of a result in which nothing is hidden comes as it should. */
    lemma BlockKeepsPrefix(size: int)
      requires InOrder() && 0 <= size
      ensures NoneHidden(obs, all, resource) ==>
              var piece := Answer(less, all, NextFilter(obs, rows, resource), size);
              && |rows| + |piece| <= |all| && rows + piece == all[..|rows| + |piece|]
              && (|piece| < size ==> |rows| + |piece| == |all|)
    {
      hide Answer, NextFilter, AllShown, Ordered, NoneHidden;
      if NoneHidden(obs, all, resource) {
        var n := |rows|;
        var m := Min(n + size, |all|);
        ShownWhenNoneHidden(obs, all, resource, n, size, 1, m);
        BlockExact(less, obs, all, resource, n, size, 1);
        GoesOn(all, rows, all[n..m], m);
      }
    }

    /** At the end of the result it does not matter whether another block is on its way. */
    lemma NothingLeft(goal: int)
      requires InOrder() && reached == |all| && 0 < blockSize
      ensures WillBe(obs, all, resource, blockSize, rows, Some(blockSize), goal) <==>
              WillBe(obs, all, resource, blockSize, rows, None, goal)
    {
      if |rows| <= |all| && rows == all[..|rows|] {
        ReachedIsLength(less, obs, all, rows, reached);
      }
    }

    /** Stops at the limit, or else asks for the next block. */
    method ReceivedStreamPiece(size: nat)
      requires InOrder() && remaining < INT_BOUND && -INT_BOUND <= remaining - size - (|all| - |rows|)
      requires !seenEndOfStream && update.None? && (streaming || remaining < 0)
      modifies `remaining, `streaming, `running, `update, `seenEndOfStream
      ensures Valid()
      ensures streaming ==> update.Some? && update.value.1 == BlockLimit(false) && remaining == old(remaining) - size
      ensures streaming ==> old(streaming) && old(remaining) != size
      ensures !streaming ==> update.None?
      ensures seenEndOfStream ==> !streaming && reached == |all| && rows != []
      ensures seenEndOfStream ==> AllDescendingUnbound(obs, rows[|rows| - 1])
      ensures streaming ==> rows == [] || !AllDescendingUnbound(obs, rows[|rows| - 1])
      ensures !streaming && !seenEndOfStream <==> !old(streaming) || old(remaining) == size
    {
      hide NoneHidden, Ordered, Answer, NextFilter, AllDescendingUnbound;
      remaining := remaining - size;
      if remaining == 0 {
        // disableStreaming
        remaining := -1;
        streaming := false;
      }
      if streaming {
        var ok := InitiateStreamPiece(false);
        if !ok {
          EndOfStream();
        }
      } else {
        running := false;
      }
    }

    /** The block on its way is forgotten. */
    method CancelStreamPiece()
      requires Valid()
      modifies this`update, this`running
      ensures Valid() && update.None?
    {
      if update.None? {
        return;
      }
      update := None;
      running := false;
    }

    /**
     Switches the two states, in the order streaming first. Rows stay as they are; what is asked for anew begins behind
     them. Enabling counts the limit again from here; a block that is already on its way is not cut by it.
     */
    method ChangeState(enables: set<Flag>, disables: set<Flag>)
      requires Valid() && enables !! disables && (enables != {} ==> !seenEndOfStream)
      modifies `remaining, `streaming, `running, `update, `seenEndOfStream
      ensures Valid()
      ensures Running in disables ==> update.None?
      ensures Running in disables || enables == {} ==> seenEndOfStream == old(seenEndOfStream)
      ensures enables != {} && Running !in disables ==> update.Some? || (seenEndOfStream && reached == |all|)
      ensures !seenEndOfStream ==>
                streaming == (Streaming in enables || (old(streaming) && Streaming !in disables))
      ensures old(update).Some? && Running !in disables ==> update == old(update) && !seenEndOfStream
      ensures old(update).None? && update.Some? ==> update.value.1 == BlockLimit(true)
      ensures Streaming in enables ==> remaining == limit
      ensures Streaming in enables && update.Some? ==>
                Goal() == if 0 <= limit && update.value.1 <= limit then Min(|rows| + limit, |all|) else |all|
    {
      hide Ordered, NoneHidden, Answer, NextFilter;
      if Streaming in enables {
        // enableStreaming
        remaining := limit;
        streaming := true;
      } else if Streaming in disables {
        // disableStreaming
        remaining := -1;
        streaming := false;
      }
      if Running in disables {
        CancelStreamPiece();
      } else if enables != {} {
        var ok := InitiateStreamPiece(true);
        if !ok {
          EndOfStream();
        }
      }
    }

    /** A state can be asked for until the end of the stream, if the rest of the modules agree. */
    method AlterStrategy(flags: set<Flag>, mask: set<Flag>, agreed: bool) returns (ok: bool)
      requires Valid()
      modifies `remaining, `streaming, `running, `update, `seenEndOfStream
      ensures Valid()
      ensures ok <==> agreed && (old(seenEndOfStream) ==> mask * flags == {})
      ensures !ok ==> update == old(update) && streaming == old(streaming) && seenEndOfStream == old(seenEndOfStream)
      ensures ok && Running in mask - flags ==> update.None?
      ensures ok && (Running in mask - flags || mask * flags == {}) ==> seenEndOfStream == old(seenEndOfStream)
      ensures ok && mask * flags != {} && Running !in mask - flags ==>
                update.Some? || (seenEndOfStream && reached == |all|)
      ensures ok && !seenEndOfStream ==>
                streaming == (Streaming in mask * flags || (old(streaming) && Streaming !in mask - flags))
      ensures ok && old(update).Some? && Running !in mask - flags ==> update == old(update) && !seenEndOfStream
      ensures ok && old(update).None? && update.Some? ==> update.value.1 == BlockLimit(true)
      ensures ok && Streaming in mask * flags ==> remaining == limit
      ensures ok && Streaming in mask * flags && update.Some? ==>
                Goal() == if 0 <= limit && update.value.1 <= limit then Min(|rows| + limit, |all|) else |all|
    {
      if mask * flags != {} && seenEndOfStream {
        return false;
      }
      if !agreed {
        return false;
      }
      ChangeState(mask * flags, mask - flags);
      return true;
    }

    /** The attributes can be set anew at any time; a block on its way keeps its size. */
    method SetAttributes(firstBlockSize: int, blockSize: int, limit: int)
      requires Valid() && 0 <= firstBlockSize < INT_BOUND && 0 <= blockSize < INT_BOUND
      requires -INT_BOUND <= limit - |all| && limit < INT_BOUND
      modifies `firstBlockSize, `blockSize, `limit
      ensures Valid()
      ensures this.firstBlockSize == firstBlockSize && this.blockSize == blockSize && this.limit == limit
    {
      this.firstBlockSize, this.blockSize, this.limit := firstBlockSize, blockSize, limit;
    }

    /** Block after block comes in until the streaming stops: no row is lost exactly when it can be told now. */
    method Run()
      requires Valid() && 0 < blockSize && (streaming ==> update.Some?)
      modifies `rows, `reached, `remaining, `streaming, `running, `update, `seenEndOfStream
      ensures Valid() && !streaming && update.None?
      ensures old(rows) <= rows
      ensures rows == all[..old(Goal())] <==> old(Complete(Goal()))
    {
      ghost var goal := Goal();
      while update.Some?
        invariant Valid() && (streaming ==> update.Some?) && (update.Some? ==> Goal() == goal)
        invariant old(rows) <= rows
        invariant Complete(goal) <==> old(Complete(Goal()))
        decreases streaming, |all| - reached, update.Some? && update.value.1 == 0, update.Some?
      {
        UpdateModel();
      }
    }
  }

  /**
   A result streamed from its first row to the limit: it comes complete exactly when, at each place where a block ends,
   no row of the next block is hidden from the last row there is.
   */
  method Stream<V(==, !new)>(less: (V, V) -> bool, obs: seq<OrderBy>, resource: int -> bool, all: seq<Row<V>>,
                             firstBlockSize: int, blockSize: int, limit: int) returns (rows: seq<Row<V>>)
    requires TotalOrder(less) && Ordered(less, obs, all)
    requires 0 < firstBlockSize < INT_BOUND && 0 < blockSize < INT_BOUND
    requires -INT_BOUND <= limit < INT_BOUND
    requires |all| < INT_BOUND && (limit < 0 ==> -INT_BOUND <= limit - |all|)
    ensures var wanted := if 0 < limit < |all| then limit else |all|;
            rows == all[..wanted] <==> AllShown(obs, all, resource, 0, firstBlockSize, blockSize, wanted)
    ensures Ordered(less, obs, rows) && forall r <- rows :: r in all
  {
    var updater := new Updater(less, obs, resource, all, firstBlockSize, blockSize, limit);
    updater.Run();
    rows := updater.rows;
  }

  /**
   Streaming that has stopped at its limit, switched on again while a single block larger than the limit is on its way:
   it does not stop at the limit, nor anywhere before the end.
   */
  method RunPastLimit<V(==, !new)>(less: (V, V) -> bool, obs: seq<OrderBy>, resource: int -> bool,
                                   all: seq<Row<V>>, blockSize: int, limit: int)
    returns (stopped: seq<Row<V>>, rows: seq<Row<V>>)
    requires TotalOrder(less) && Ordered(less, obs, all) && NoneHidden(obs, all, resource)
    requires 0 < limit < blockSize < INT_BOUND && limit < |all| < INT_BOUND
    ensures stopped == all[..limit] && rows == all
  {
    var updater := new Updater(less, obs, resource, all, blockSize, blockSize, limit);
    updater.WillComplete();
    updater.Run();
    stopped := updater.rows;
    ReachedIsLength(less, obs, all, updater.rows, updater.reached);
    var _ := updater.AlterStrategy({Running}, {Running}, true);
    assert Running in {Running} * {Running};
    var _ := updater.AlterStrategy({Streaming}, {Streaming}, true);
    updater.WillComplete();
    updater.Run();
    rows := updater.rows;
    assert all[..|all|] == all;
  }

  /**
   The same with the limit taken away as the documentation says: the next block is asked for with a limit of 0, and the
   streaming stops with nothing new.
   */
  method NoLimitStops<V(==, !new)>(less: (V, V) -> bool, obs: seq<OrderBy>, resource: int -> bool,
                                   all: seq<Row<V>>, blockSize: int, limit: int)
    returns (stopped: seq<Row<V>>, rows: seq<Row<V>>, asked: bool, streams: bool, ended: bool)
    requires TotalOrder(less) && Ordered(less, obs, all) && NoneHidden(obs, all, resource)
    requires 0 < blockSize < INT_BOUND && 0 < limit < |all| < INT_BOUND
    ensures stopped == all[..limit] && rows == stopped && asked && !streams && !ended
  {
    var updater := new Updater(less, obs, resource, all, blockSize, blockSize, limit);
    updater.WillComplete();
    updater.Run();
    stopped := updater.rows;
    ReachedIsLength(less, obs, all, updater.rows, updater.reached);
    updater.SetAttributes(blockSize, blockSize, NO_LIMIT);
    var _ := updater.AlterStrategy({Streaming}, {Streaming}, true);
    asked := updater.update.Some?;
    updater.UpdateModel();
    rows, streams, ended := updater.rows, updater.streaming, updater.seenEndOfStream;
  }

  /** With blocks of no rows a stream without limit goes round for ever: however many blocks come, all is as it was. */
  method EmptyBlock<V(==, !new)>(updater: Updater<V>, blocks: nat) returns (pieces: seq<seq<Row<V>>>)
    requires updater.Valid() && updater.streaming && updater.remaining < 0
    requires updater.blockSize == 0 && updater.update.Some? && updater.update.value.1 == 0
    requires updater.rows == [] || !AllDescendingUnbound(updater.obs, updater.rows[|updater.rows| - 1])
    modifies updater
    ensures updater.Valid() && updater.streaming && updater.running && updater.remaining == old(updater.remaining)
    ensures updater.rows == old(updater.rows) && updater.update == old(updater.update)
    ensures updater.blockSize == 0
    ensures |pieces| == blocks && forall piece <- pieces :: piece == []
  {
    pieces := [];
    while |pieces| < blocks
      invariant updater.Valid() && updater.streaming && updater.remaining == old(updater.remaining)
      invariant updater.rows == old(updater.rows) && updater.update == old(updater.update)
      invariant updater.blockSize == 0
      invariant |pieces| <= blocks && forall piece <- pieces :: piece == []
    {
      pieces := pieces + [updater.update.value.0];
      updater.UpdateModel();
    }
  }

  /** A row that is lost, or not, with the size of the first block. */
  lemma SecondRowLost(less: (int, int) -> bool, blockSize: int)
    requires TotalOrder(less) && 0 < blockSize
    ensures var obs := [OrderBy(0, false)];
            var all: seq<Row<int>> := [[Some(7)], [None]];
            && Ordered(less, obs, all) && !NoneHidden(obs, all, c => true)
            && AllShown(obs, all, c => true, 0, 2, blockSize, 2)
            && !AllShown(obs, all, c => true, 0, 1, blockSize, 2)
            && Answer(less, all, NextFilter(obs, all[..1], c => true), blockSize) == []
  {
    var obs := [OrderBy(0, false)];
    var all: seq<Row<int>> := [[Some(7)], [None]];
    FilterMisses(less);
    var f := Built(obs, all[0], c => true);
    assert Hidden(obs, all[1], all[0], c => true);
    assert !Shown(obs, all, c => true, 1, BlockStart(0, 1, blockSize, 1));
  }
}
