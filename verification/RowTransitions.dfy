/**
 The row operations of a model around the smooth transition: rows are taken out and put in between signals that
 name them, or migrated smoothly.
 */
module RowTransitions {
  import opened Arithmetic
  import opened Transition

  /** The rows with a slice replaced; the slice may reach past the end. */
  function WithSlice(rows: seq<Row>, first: nat, count: nat, newRows: seq<Row>): seq<Row>
    requires first <= |rows|
  {
    rows[..first] + newRows + rows[Min(first + count, |rows|)..]
  }

  class RowStoreModel {
    var rows: seq<Row>
    const identity: OrderBy
    ghost var log: seq<Announcement>

    constructor (rows: seq<Row>, identity: OrderBy)
      ensures this.rows == rows && this.identity == identity && log == []
    {
      this.rows, this.identity, log := rows, identity, [];
    }

    /** Takes rows out. What is announced is what was asked for, even past the end. */
    method RemoveRows(first: nat, count: nat) returns (ghost done: seq<Announcement>)
      requires first < |rows|
      modifies this`rows, this`log
      ensures rows == WithSlice(old(rows), first, count, []) && log == old(log) + done
      ensures done == [] <==> count == 0
      ensures Readable(old(rows), done) == rows
      ensures AllHonest(old(rows), done) <==> first + count <= |old(rows)|
    {
      done := [];
      if count != 0 {
        ghost var was := rows;
        rows := rows[..first] + rows[Min(first + count, |rows|)..];
        done := [Announcement([Removed(first, first + count - 1)], rows, rows)];
        assert rows == WithSlice(was, first, count, []);
        OneAnnouncement(was, done[0]);
        if first + count <= |was| {
          HonestRemoval(was, rows, first, first + count - 1);
        } else {
          NotHonest(was, done[0]);
        }
        log := log + done;
      } else {
        assert rows == WithSlice(rows, first, 0, []);
      }
    }

    method InsertRows(first: nat, newRows: seq<Row>) returns (ghost done: seq<Announcement>)
      requires first <= |rows|
      modifies this`rows, this`log
      ensures rows == WithSlice(old(rows), first, 0, newRows) && log == old(log) + done
      ensures AllHonest(old(rows), done) && Readable(old(rows), done) == rows
    {
      done := [];
      if newRows != [] {
        ghost var was := rows;
        rows := rows[..first] + newRows + rows[first..];
        done := [Announcement([Inserted(first, first + |newRows| - 1)], rows, rows)];
        assert rows[first..first + |newRows|] == newRows;
        HonestInsertion(was, rows, first, first + |newRows| - 1);
        OneAnnouncement(was, done[0]);
        log := log + done;
      } else {
        assert rows == WithSlice(rows, first, 0, []);
      }
    }

    /** Takes the old rows out and puts the new ones in. A listener can follow exactly when the slice is all there. */
    method HardTransition(first: nat, count: nat, newRows: seq<Row>) returns (ghost done: seq<Announcement>)
      requires first <= |rows|
      modifies this`rows, this`log
      ensures rows == WithSlice(old(rows), first, count, newRows) && log == old(log) + done
      ensures AllHonest(old(rows), done) <==> first == |old(rows)| || first + count <= |old(rows)|
      ensures Readable(old(rows), done) == rows
    {
      hide AllHonest, Readable, WithSlice;
      ghost var was := rows;
      ghost var removed: seq<Announcement> := [];
      HonestNone(was);
      SliceFacts(was, first, count, newRows);
      if |rows| > first {
        removed := RemoveRows(first, count);
      }
      ghost var inserted := InsertRows(first, newRows);
      done := removed + inserted;
      JoinLogs(was, removed, inserted);
      assert log == old(log) + done;
    }

    /** Replaces a slice of the rows by new ones, smoothly or not. */
    method TransitionRows(first: nat, count: nat, newRows: seq<Row>, smooth: bool, ghost width: nat)
        returns (ghost done: seq<Announcement>)
      requires first <= |rows|
      requires smooth ==>
        && identity != []
        && Wide(identity, rows[first..Min(first + count, |rows|)], width) && Wide(identity, newRows, width)
      modifies this`rows, this`log
      ensures rows == WithSlice(old(rows), first, count, newRows) && log == old(log) + done
      ensures Readable(old(rows), done) == rows
      ensures AllHonest(old(rows), done) <==>
              first == |old(rows)| || first + count <= |old(rows)| || (smooth && newRows != [])
      ensures smooth && newRows != [] && count > 0 && first < |old(rows)| ==>
                var behind := |old(rows)| - Min(first + count, |old(rows)|);
                Plan(identity, first, newRows, behind, width).Sparing(old(rows), done)
    {
      hide AllHonest, Readable, Wide, Plan.Sparing;
      if count == 0 || first >= |rows| {
        assert WithSlice(rows, first, count, newRows) == WithSlice(rows, first, 0, newRows);
        done := InsertRows(first, newRows);
        return;
      }
      if smooth && newRows != [] {
        var transition := new SmoothTransition(rows, identity);
        var ok, run := transition.Migrate(first, count, newRows, width);
        if ok {
          rows := transition.oldRows;
          log := log + run;
          done := run;
          return;
        }
      }
      done := HardTransition(first, count, newRows);
    }
  }

  lemma SliceFacts(rows: seq<Row>, first: nat, count: nat, newRows: seq<Row>)
    requires first <= |rows|
    ensures var rest := WithSlice(rows, first, count, []);
            && first <= |rest| && WithSlice(rest, first, 0, newRows) == WithSlice(rows, first, count, newRows)
            && (first == |rows| ==> rest == rows)
  {
  }

  lemma OneAnnouncement(rows: seq<Row>, a: Announcement)
    ensures AllHonest(rows, [a]) <==> Honest(rows, a)
    ensures Readable(rows, [a]) == a.readable
  {
    hide Honest;
    assert [a][..0] == [];
    assert AllHonest(rows, []) && Readable(rows, []) == rows;
  }

  lemma NotHonest(rows: seq<Row>, a: Announcement)
    requires |a.changes| == 1 && a.changes[0].Removed? && |rows| <= a.changes[0].last
    ensures !Honest(rows, a)
  {
    assert a.changes[0] in a.changes;
    assert !InBounds(a.changes[0], rows, a.readable);
  }
}
