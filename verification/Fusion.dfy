/**
 The list of operations of an update. An operation may be fused into the one before it; the update must still have
 the effect of its operations one after the other.
 */
module Fusion {

  type Triple = (string, string, string)
  type Quad = (string, Triple)

  /** A statement of an operation: a ground triple, if it is definite and not constrained. */
  datatype Statement = Statement(triple: Triple, definite: bool, constrained: bool)

  // ----- operations -----

  const INSERT: bv8 := 0
  const DELETE: bv8 := 1
  const MODIFY: bv8 := 2
  const DEFINITE: bv8 := 4
  const SILENT: bv8 := 8

  datatype Operation = Operation(flags: bv8, deletes: seq<Statement>, inserts: seq<Statement>, graph: string)
  {
    /** Insert, delete or modify. */
    function Type(): bv8 {
      flags & !(DEFINITE | SILENT)
    }

    predicate HasType() {
      Type() == INSERT || Type() == DELETE || Type() == MODIFY
    }

    predicate IsSilent() {
      flags & SILENT != 0
    }

    predicate IsDefinite() {
      flags & DEFINITE != 0 && !HasConstraints(inserts)
    }

    /** As the factories make them: an insertion deletes nothing, a deletion inserts nothing. */
    predicate Tidy() {
      && HasType()
      && (Type() == INSERT ==> deletes == [])
      && (Type() == DELETE ==> inserts == [])
    }

    function Deleted(): set<Quad> {
      Quads(deletes, graph)
    }

    function Inserted(): set<Quad> {
      Quads(inserts, graph)
    }

    /** Of this type, on this graph and with these statements; definite, if they allow it. */
    ghost predicate Carries(t: bv8, removed: seq<Statement>, added: seq<Statement>, on: string) {
      && Type() == t && !IsSilent() && graph == on
      && Deleted() == Quads(removed, on) && Inserted() == Quads(added, on)
      && (IsDefinite() <==> (forall st <- removed :: st.definite) && (forall st <- added :: !st.constrained))
    }
  }

  /** The triples of some statements, on a graph. */
  function Quads(statements: seq<Statement>, graph: string): set<Quad> {
    set st | st in statements :: (graph, st.triple)
  }

  predicate HasConstraints(statements: seq<Statement>) {
    exists st <- statements :: st.constrained
  }

  predicate AllDefinite(statements: seq<Statement>) {
    forall st <- statements :: st.definite
  }

  // ----- effects -----

  /** What a definite operation does: delete, then insert. */
  function Plain(op: Operation, s: set<Quad>): set<Quad> {
    if op.Type() == MODIFY then s - op.Deleted() + op.Inserted()
    else if op.Type() == DELETE then s - op.Deleted()
    else s + op.Inserted()
  }

  /** What any other operation does is up to the store. */
  function Effect(store: (Operation, set<Quad>) -> set<Quad>, op: Operation, s: set<Quad>): set<Quad> {
    if op.IsDefinite() && !op.IsSilent() then Plain(op, s) else store(op, s)
  }

  // ----- making operations -----

  function NewOperation(deletes: seq<Statement>, inserts: seq<Statement>, t: bv8, graph: string): (op: Operation)
    ensures t in {INSERT, DELETE, MODIFY} ==> op.Carries(t, deletes, inserts, graph)
  {
    Operation(if AllDefinite(deletes) && !HasConstraints(inserts) then t | DEFINITE else t, deletes, inserts, graph)
  }

  function Insertion(inserts: seq<Statement>, graph: string): (op: Operation)
    ensures op.Carries(INSERT, [], inserts, graph)
    ensures forall store, s :: Effect(store, op, s) ==
              if forall st <- inserts :: !st.constrained then s + Quads(inserts, graph) else store(op, s)
    ensures op.Tidy()
  {
    NewOperation([], inserts, INSERT, graph)
  }

  function Deletion(deletes: seq<Statement>, graph: string): (op: Operation)
    ensures op.Carries(DELETE, deletes, [], graph)
    ensures forall store, s :: Effect(store, op, s) ==
              if forall st <- deletes :: st.definite then s - Quads(deletes, graph) else store(op, s)
    ensures op.Tidy()
  {
    NewOperation(deletes, [], DELETE, graph)
  }

  function Modification(deletes: seq<Statement>, inserts: seq<Statement>, graph: string): (op: Operation)
    ensures op.Carries(MODIFY, deletes, inserts, graph)
    ensures forall store, s :: Effect(store, op, s) ==
              if (forall st <- deletes :: st.definite) && (forall st <- inserts :: !st.constrained)
              then s - Quads(deletes, graph) + Quads(inserts, graph) else store(op, s)
    ensures op.Tidy()
  {
    NewOperation(deletes, inserts, MODIFY, graph)
  }

  // ----- lists of operations -----

  function RunAll(store: (Operation, set<Quad>) -> set<Quad>, ops: seq<Operation>, s: set<Quad>): set<Quad> {
    if ops == [] then s else RunAll(store, ops[1..], Effect(store, ops[0], s))
  }

  ghost predicate SameEffect(ops: seq<Operation>, others: seq<Operation>) {
    forall store, s :: RunAll(store, ops, s) == RunAll(store, others, s)
  }

  // ----- fusing two operations -----

  predicate MayMerge(left: Operation, right: Operation) {
    && (left.Type() == DELETE || right.Type() == INSERT)
    && left.IsDefinite() && right.IsDefinite() && !left.IsSilent() && !right.IsSilent()
    && left.graph == right.graph
  }

  function Merged(left: Operation, right: Operation): Operation {
    Operation(((left.flags + 1) | (right.flags + 1)) - 1,
              left.deletes + right.deletes, left.inserts + right.inserts, left.graph)
  }

  /** The flags of the two add up to those of the fused operation. */
  lemma MergedFlags(left: bv8, right: bv8)
    requires left & SILENT == 0 && right & SILENT == 0 && left & DEFINITE != 0 && right & DEFINITE != 0
    requires left & !(DEFINITE | SILENT) <= 2 && right & !(DEFINITE | SILENT) <= 2
    ensures var flags := ((left + 1) | (right + 1)) - 1;
            && flags & SILENT == 0 && flags & DEFINITE != 0
            && flags & !(DEFINITE | SILENT)
               == (if left & !(DEFINITE | SILENT) == right & !(DEFINITE | SILENT)
                   then left & !(DEFINITE | SILENT) else MODIFY)
  {
  }

  lemma MergedIs(left: Operation, right: Operation)
    requires MayMerge(left, right) && left.HasType() && right.HasType()
    ensures var m := Merged(left, right);
            && m.IsDefinite() && !m.IsSilent() && m.HasType()
            && m.Type() == (if left.Type() == right.Type() then left.Type() else MODIFY)
            && m.Deleted() == left.Deleted() + right.Deleted()
            && m.Inserted() == left.Inserted() + right.Inserted()
            && (left.Tidy() && right.Tidy() ==> m.Tidy())
  {
    MergedFlags(left.flags, right.flags);
    var m := Merged(left, right);
    assert forall st :: st in m.deletes <==> st in left.deletes || st in right.deletes;
    assert forall st :: st in m.inserts <==> st in left.inserts || st in right.inserts;
  }

  /** Nothing comes into force by fusing that the two operations carry but ignore. */
  predicate NothingWakes(left: Operation, right: Operation) {
    && (left.Type() == DELETE && right.Type() != DELETE ==> left.Inserted() <= right.Inserted())
    && (left.Type() == DELETE && right.Type() == INSERT ==> right.Deleted() <= left.Deleted() + right.Inserted())
    && (left.Type() == MODIFY && right.Type() == INSERT ==>
          right.Deleted() <= left.Deleted() + left.Inserted() + right.Inserted())
  }

  /** The fused operation has the effect of the two in a row on every set of triples exactly when nothing wakes. */
  lemma MergeExactly(left: Operation, right: Operation)
    requires MayMerge(left, right) && left.HasType() && right.HasType()
    ensures (forall s :: Plain(Merged(left, right), s) == Plain(right, Plain(left, s))) <==> NothingWakes(left, right)
  {
    MergedIs(left, right);
    hide Merged, MayMerge;
    var m := Merged(left, right);
    if NothingWakes(left, right) {
      forall s ensures Plain(m, s) == Plain(right, Plain(left, s)) {
      }
    } else if q :| q in left.Inserted() && q !in right.Inserted() && left.Type() == DELETE && right.Type() != DELETE {
      assert q in Plain(m, {}) && q !in Plain(right, Plain(left, {}));
    } else {
      var q :| q in right.Deleted() && q !in left.Deleted() + right.Inserted()
               && (left.Type() == MODIFY ==> q !in left.Inserted());
      assert q !in Plain(m, {q}) || q in left.Inserted();
      assert q in Plain(right, Plain(left, {q}));
    }
  }

  lemma TidyNeverWakes(left: Operation, right: Operation)
    requires left.Tidy() && right.Tidy()
    ensures NothingWakes(left, right)
  {
  }

  /** Whatever operations of these types are fused: the one has the effect of the two in a row. */
  ghost predicate TypesFuse(first: bv8, second: bv8) {
    forall left: Operation, right: Operation, s ::
      left.Tidy() && right.Tidy() && left.Type() == first && right.Type() == second && left.graph == right.graph
      && left.IsDefinite() && right.IsDefinite() && !left.IsSilent() && !right.IsSilent() ==>
        Plain(Merged(left, right), s) == Plain(right, Plain(left, s))
  }

  /** Of two definite operations those are fused whose types never make it go wrong, and no others. */
  lemma FusedWherePossible(left: Operation, right: Operation)
    requires left.HasType() && right.HasType() && left.graph == right.graph
    requires left.IsDefinite() && right.IsDefinite() && !left.IsSilent() && !right.IsSilent()
    ensures MayMerge(left, right) <==> TypesFuse(left.Type(), right.Type())
  {
    if MayMerge(left, right) {
      forall l: Operation, r: Operation, s |
        l.Tidy() && r.Tidy() && l.Type() == left.Type() && r.Type() == right.Type() && l.graph == r.graph
        && l.IsDefinite() && r.IsDefinite() && !l.IsSilent() && !r.IsSilent()
        ensures Plain(Merged(l, r), s) == Plain(r, Plain(l, s))
      {
        TidyNeverWakes(l, r);
        MergeExactly(l, r);
      }
    } else {
      var st := [Statement(("", "", ""), true, false)];
      var l := if left.Type() == INSERT then Insertion(st, "") else Modification([], st, "");
      var r := if right.Type() == DELETE then Deletion(st, "") else Modification(st, [], "");
      PutAndTake(l, r, ("", st[0].triple));
    }
  }

  /** What the one puts in the other takes out again, but fused they leave it there. */
  lemma PutAndTake(left: Operation, right: Operation, q: Quad)
    requires left.Type() in {INSERT, MODIFY} && right.Type() in {DELETE, MODIFY} && left.graph == right.graph
    requires left.IsDefinite() && right.IsDefinite() && !left.IsSilent() && !right.IsSilent()
    requires q in left.Inserted() && q in right.Deleted() && q !in right.Inserted()
    ensures q in Plain(Merged(left, right), {}) && q !in Plain(right, Plain(left, {}))
  {
    MergedFlags(left.flags, right.flags);
  }

  /** A deletion that carries triples to insert, as the constructor lets one make it, wakes them when fused. */
  lemma FusingWakes(t: Triple, u: Triple)
    requires t != u
    ensures var left := NewOperation([], [Statement(t, true, false)], DELETE, "");
            var right := Insertion([Statement(u, true, false)], "");
            && MayMerge(left, right)
            && Plain(Merged(left, right), {}) != Plain(right, Plain(left, {}))
  {
    var left := NewOperation([], [Statement(t, true, false)], DELETE, "");
    var right := Insertion([Statement(u, true, false)], "");
    assert left.flags == 5 && right.flags == 4;
    MergedIs(left, right);
    assert left.inserts[0] in left.inserts;
    assert ("", t) in left.Inserted();
    assert ("", t) !in right.Inserted();
    assert ("", t) in Plain(Merged(left, right), {});
  }

  // ----- updates -----

  lemma {:induction false} RunBoth(
    store: (Operation, set<Quad>) -> set<Quad>, front: seq<Operation>, back: seq<Operation>, s: set<Quad>)
    ensures RunAll(store, front + back, s) == RunAll(store, back, RunAll(store, front, s))
    decreases front
  {
    if front == [] {
      assert front + back == back;
    } else {
      assert (front + back)[1..] == front[1..] + back;
      RunBoth(store, front[1..], back, Effect(store, front[0], s));
    }
  }

  lemma RunOne(store: (Operation, set<Quad>) -> set<Quad>, op: Operation, s: set<Quad>)
    ensures RunAll(store, [op], s) == Effect(store, op, s)
  {
    hide Effect;
    assert [op][1..] == [];
  }

  lemma RunTwo(store: (Operation, set<Quad>) -> set<Quad>, left: Operation, right: Operation, s: set<Quad>)
    ensures RunAll(store, [left, right], s) == Effect(store, right, Effect(store, left, s))
  {
    hide Effect;
    assert [left, right][1..] == [right];
    RunOne(store, right, Effect(store, left, s));
  }

  /** Fusing two neighbours that may be fused, somewhere in a list. */
  lemma FusedInList(front: seq<Operation>, left: Operation, right: Operation, back: seq<Operation>)
    requires MayMerge(left, right) && left.HasType() && right.HasType() && NothingWakes(left, right)
    ensures SameEffect(front + [Merged(left, right)] + back, front + [left, right] + back)
  {
    MergeExactly(left, right);
    MergedIs(left, right);
    forall store, s
      ensures RunAll(store, front + [Merged(left, right)] + back, s) == RunAll(store, front + [left, right] + back, s)
    {
      var m := Merged(left, right);
      var u := RunAll(store, front, s);
      RunBoth(store, front, [m], s);
      RunBoth(store, front, [left, right], s);
      RunBoth(store, front + [m], back, s);
      RunBoth(store, front + [left, right], back, s);
      RunOne(store, m, u);
      RunTwo(store, left, right, u);
    }
  }

  /** Of two operations that may be fused nothing more is to be known than what wakes. */
  lemma FusedAlone(left: Operation, right: Operation)
    requires MayMerge(left, right) && left.HasType() && right.HasType()
    ensures SameEffect([Merged(left, right)], [left, right]) <==> NothingWakes(left, right)
  {
    MergeExactly(left, right);
    MergedIs(left, right);
    hide Merged, NothingWakes, Plain, RunAll;
    var m := Merged(left, right);
    var keeping: (Operation, set<Quad>) -> set<Quad> := (op, s) => s;
    forall store, s
      ensures RunAll(store, [m], s) == Plain(m, s)
      ensures RunAll(store, [left, right], s) == Plain(right, Plain(left, s))
    {
      RunOne(store, m, s);
      RunTwo(store, left, right, s);
    }
    if SameEffect([m], [left, right]) {
      forall s
        ensures Plain(m, s) == Plain(right, Plain(left, s))
      {
        assert RunAll(keeping, [m], s) == RunAll(keeping, [left, right], s);
      }
    }
  }

  /** Nothing wakes at the seam of two lists. */
  predicate QuietSeam(front: seq<Operation>, back: seq<Operation>) {
    front != [] && back != [] && MayMerge(front[|front| - 1], back[0]) ==>
      && front[|front| - 1].HasType() && back[0].HasType()
      && NothingWakes(front[|front| - 1], back[0])
  }

  /** The list with one more operation, fused with the last one if that may be. */
  function Fused(ops: seq<Operation>, op: Operation): seq<Operation> {
    if ops != [] && MayMerge(ops[|ops| - 1], op) then ops[..|ops| - 1] + [Merged(ops[|ops| - 1], op)] else ops + [op]
  }

  predicate AllTidy(ops: seq<Operation>) {
    forall op <- ops :: op.Tidy()
  }

  class Update {
    var operations: seq<Operation>

    constructor ()
      ensures operations == []
    {
      operations := [];
    }

    /** Fuses an operation with the one at a place, if that may be. */
    method MergeOperations(place: nat, right: Operation) returns (merged: bool)
      requires place < |operations|
      modifies this
      ensures merged == MayMerge(old(operations)[place], right)
      ensures operations ==
              if merged then old(operations)[place := Merged(old(operations)[place], right)] else old(operations)
    {
      var left := operations[place];
      if (left.Type() != DELETE && right.Type() != INSERT) || !left.IsDefinite() || !right.IsDefinite()
         || left.IsSilent() || right.IsSilent() || left.graph != right.graph {
        return false;
      }
      operations := operations[place := Operation(((left.flags + 1) | (right.flags + 1)) - 1,
                                                  left.deletes + right.deletes,
                                                  left.inserts + right.inserts, left.graph)];
      return true;
    }

    /** The update then has the effect of what it was before, followed by the operation. */
    method AddOperation(op: Operation)
      modifies this
      ensures QuietSeam(old(operations), [op]) ==> SameEffect(operations, old(operations) + [op])
      ensures AllTidy(old(operations) + [op]) ==>
                AllTidy(operations) && SameEffect(operations, old(operations) + [op])
      ensures operations == Fused(old(operations), op)
    {
      ghost var was := operations;
      var merged := false;
      if operations != [] {
        merged := MergeOperations(|operations| - 1, op);
      }
      if !merged {
        operations := operations + [op];
      } else {
        Seam(was, [op], Merged(was[|was| - 1], op));
        if AllTidy(was + [op]) {
          MergedLast(was, op);
        }
        if QuietSeam(was, [op]) {
          QuietlyMerged(was, [op]);
          assert was[..|was| - 1] + [Merged(was[|was| - 1], op)] + [op][1..] == operations;
        }
      }
    }

    /** The update then has the effect of what it was before, followed by the other one. */
    method AppendUpdate(other: Update)
      modifies this
      ensures QuietSeam(old(operations), old(other.operations)) ==>
                SameEffect(operations, old(operations) + old(other.operations))
      ensures AllTidy(old(operations) + old(other.operations)) ==>
                AllTidy(operations) && SameEffect(operations, old(operations) + old(other.operations))
      ensures operations == if old(other.operations) == [] then old(operations)
                            else Fused(old(operations), old(other.operations)[0]) + old(other.operations)[1..]
    {
      hide Merged, MayMerge, SameEffect, AllTidy, QuietSeam;
      ghost var was, others := operations, other.operations;
      var secondMergeable := if operations != [] && other.operations != [] then |operations| else 0;
      operations := operations + other.operations;
      SelfEffect(operations);
      if secondMergeable != 0 {
        assert operations[secondMergeable - 1] == was[|was| - 1] && operations[secondMergeable] == others[0];
        var merged := MergeOperations(secondMergeable - 1, operations[secondMergeable]);
        if merged {
          Seam(was, others, Merged(was[|was| - 1], others[0]));
          if QuietSeam(was, others) {
            QuietlyMerged(was, others);
          }
          if AllTidy(was + others) {
            MergedAtSeam(was, others);
          }
          operations := operations[..secondMergeable] + operations[secondMergeable + 1..];
        }
      }
    }
  }

  lemma MergedLast(was: seq<Operation>, op: Operation)
    requires was != [] && AllTidy(was + [op]) && MayMerge(was[|was| - 1], op)
    ensures var then_ := was[|was| - 1 := Merged(was[|was| - 1], op)];
            AllTidy(then_) && SameEffect(then_, was + [op])
  {
    MergedAtSeam(was, [op]);
    var m := Merged(was[|was| - 1], op);
    assert was[..|was| - 1] + [m] + [op][1..] == was[|was| - 1 := m];
  }

  lemma QuietlyMerged(was: seq<Operation>, others: seq<Operation>)
    requires was != [] && others != [] && MayMerge(was[|was| - 1], others[0]) && QuietSeam(was, others)
    ensures SameEffect(was[..|was| - 1] + [Merged(was[|was| - 1], others[0])] + others[1..], was + others)
  {
    hide SameEffect, Merged, MayMerge, NothingWakes;
    FusedInList(was[..|was| - 1], was[|was| - 1], others[0], others[1..]);
    assert was[..|was| - 1] + [was[|was| - 1], others[0]] + others[1..] == was + others;
  }

  lemma Seam(was: seq<Operation>, others: seq<Operation>, m: Operation)
    requires was != [] && others != []
    ensures var all := (was + others)[|was| - 1 := m];
            all[..|was|] + all[|was| + 1..] == was[..|was| - 1] + [m] + others[1..]
  {
  }

  lemma MergedAtSeam(was: seq<Operation>, others: seq<Operation>)
    requires was != [] && others != [] && AllTidy(was + others) && MayMerge(was[|was| - 1], others[0])
    ensures var m := Merged(was[|was| - 1], others[0]);
            var then_ := was[..|was| - 1] + [m] + others[1..];
            AllTidy(then_) && SameEffect(then_, was + others)
  {
    hide RunAll, SameEffect, Merged, MayMerge, NothingWakes;
    var left, right := was[|was| - 1], others[0];
    var m := Merged(left, right);
    assert left in was + others && right in was + others;
    assert (was + others)[|was| - 1] == left && (was + others)[|was|] == right;
    MergedIs(left, right);
    TidyNeverWakes(left, right);
    FusedInList(was[..|was| - 1], left, right, others[1..]);
    assert was[..|was| - 1] + [left, right] + others[1..] == was + others;
    var then_ := was[..|was| - 1] + [m] + others[1..];
    forall op <- then_ ensures op.Tidy() {
      assert op == m || op in was + others;
    }
  }

  // ----- adding many operations -----

  /** The operations added to an update one after the other. */
  function FusedAll(ops: seq<Operation>): seq<Operation> {
    if ops == [] then [] else Fused(FusedAll(ops[..|ops| - 1]), ops[|ops| - 1])
  }

  lemma FusedIsSame(ops: seq<Operation>, op: Operation)
    requires AllTidy(ops + [op])
    ensures AllTidy(Fused(ops, op)) && SameEffect(Fused(ops, op), ops + [op])
  {
    hide SameEffect, Merged, MayMerge;
    if ops != [] && MayMerge(ops[|ops| - 1], op) {
      MergedLast(ops, op);
      assert ops[|ops| - 1 := Merged(ops[|ops| - 1], op)] == Fused(ops, op);
    } else {
      assert SameEffect(Fused(ops, op), ops + [op]) by {
        SelfEffect(ops + [op]);
      }
    }
  }

  lemma SelfEffect(ops: seq<Operation>)
    ensures SameEffect(ops, ops)
  {
  }

  /** However many operations are added: the update has the effect of all of them in a row, on any store. */
  lemma {:induction false} FusedAllIsSame(ops: seq<Operation>)
    requires AllTidy(ops)
    ensures AllTidy(FusedAll(ops)) && SameEffect(FusedAll(ops), ops)
  {
    if ops != [] {
      var front, op := ops[..|ops| - 1], ops[|ops| - 1];
      FusedAllIsSame(front);
      FusedIsSame(FusedAll(front), op);
      forall store, s
        ensures RunAll(store, FusedAll(ops), s) == RunAll(store, ops, s)
      {
        assert FusedAll(ops) == Fused(FusedAll(front), op);
        RunBoth(store, FusedAll(front), [op], s);
        RunBoth(store, front, [op], s);
        assert front + [op] == ops;
      }
    }
  }

  /** No two neighbours could still be fused. */
  ghost predicate Settled(ops: seq<Operation>) {
    forall i, j :: 0 <= i < j < |ops| && j == i + 1 ==> !MayMerge(ops[i], ops[j])
  }

  /** What could not be fused with an operation cannot be fused with what becomes of that. */
  lemma StaysApart(left: Operation, right: Operation, op: Operation)
    requires right.HasType() && op.HasType() && MayMerge(right, op) && !MayMerge(left, right)
    ensures !MayMerge(left, Merged(right, op))
  {
    MergedIs(right, op);
  }

  lemma SettledMore(was: seq<Operation>, op: Operation)
    requires Settled(was) && AllTidy(was) && op.Tidy()
    ensures Settled(Fused(was, op)) && |Fused(was, op)| <= |was| + 1
  {
    hide MayMerge, Merged;
    var last := |was| - 1;
    if was != [] && MayMerge(was[last], op) && last > 0 {
      assert was[last] in was;
      assert !MayMerge(was[last - 1], was[last]);
      StaysApart(was[last - 1], was[last], op);
    }
  }

  /** Nothing is left to be fused, although only the last operation is looked at each time. */
  lemma {:induction false} FusedAllSettles(ops: seq<Operation>)
    requires AllTidy(ops)
    ensures AllTidy(FusedAll(ops)) && Settled(FusedAll(ops)) && |FusedAll(ops)| <= |ops|
  {
    hide MayMerge, Merged, Fused, SameEffect;
    if ops != [] {
      var front, op := ops[..|ops| - 1], ops[|ops| - 1];
      FusedAllSettles(front);
      assert op in ops;
      SettledMore(FusedAll(front), op);
      FusedIsSame(FusedAll(front), op);
    }
  }
}
