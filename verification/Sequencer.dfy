/**
 The sequencer and its operations, changed step by step: an outside signal changes the state of one operation,
 which notifies the steps registered on it, which may start or fail their operations, and so on.
 */
module Sequencing {
  import opened Options
  import opened SequencerWorld

  /** The part of the list in front of `x`. */
  function Before(list: seq<nat>, x: nat): seq<nat> {
    if list == [] || list[0] == x then [] else [list[0]] + Before(list[1..], x)
  }

  lemma {:induction false} BeforeMeans(list: seq<nat>, x: nat)
    requires Ascending(list) && x in list
    ensures Ascending(Before(list, x)) && forall b: nat :: b in Before(list, x) <==> b in list && b < x
  {
    assert forall b :: b in list <==> b == list[0] || b in list[1..];
    assert Ascending(list[1..]) && forall i :: 0 < i < |list| ==> list[0] < list[i];
    if list[0] != x {
      BeforeMeans(list[1..], x);
      AscendingFront(list[0], Before(list[1..], x));
    }
  }

  lemma OneMoreDependent(ops: seq<Operation>, found: set<nat>, r: StepRef, b: nat)
    requires b < |ops|
    requires b !in found
    ensures var w := WithDependents(ops, found, r);
            && WithDependents(ops, found + {b}, r) == w[b := w[b].(dependents := w[b].dependents + [r])]
            && w[b].qualities == ops[b].qualities && w[b].state == ops[b].state
  {
  }

  lemma OneBack(ops: seq<Operation>, before: seq<nat>, i: nat, step: Step)
    requires i < |before|
    ensures var b, rest := before[i], DependedOn(ops, before[..i], step);
            DependedOn(ops, before[..i + 1], step) ==
            if b < |ops| && step.quality in ops[b].qualities then if step.scope == Latest then {b} else {b} + rest
            else rest
  {
    assert before[..i + 1][..i] == before[..i];
  }

  lemma NotFoundYet(before: seq<nat>, i: nat, found: set<nat>)
    requires Ascending(before) && i < |before| && forall b <- found :: b in before[i + 1..]
    ensures before[i] !in found && forall b <- found + {before[i]} :: b in before[i..]
  {
    assert before[i..] == [before[i]] + before[i + 1..];
  }

  lemma OneMoreStarted(ops: seq<Operation>, found: set<nat>, r: StepRef, b: nat)
    requires b < |ops| && b !in found
    ensures |StartedNotes(ops, found + {b}, r)| ==
            |StartedNotes(ops, found, r)| + if ops[b].state == Started then 1 else 0
  {
    var n := Note(b, r, EvStarted);
    assert n !in StartedNotes(ops, found, r);
    if ops[b].state == Started {
      assert StartedNotes(ops, found + {b}, r) == StartedNotes(ops, found, r) + {n};
    } else {
      assert StartedNotes(ops, found + {b}, r) == StartedNotes(ops, found, r);
    }
  }

  /** Where a step looking backwards through `before` has got to, and what it has found and counted. */
  datatype Search = Search(ops: seq<Operation>, i: nat, depended: nat, started: nat, stop: bool)

  ghost predicate Searched(was: seq<Operation>, before: seq<nat>, step: Step, r: StepRef, s: Search, found: set<nat>) {
    && Ascending(before) && (forall b <- before :: b < |was|) && s.i <= |before|
    && s.ops == WithDependents(was, found, r)
    && s.depended == |found| && s.started == |StartedNotes(was, found, r)|
    && (forall b <- found :: b in before[s.i..])
    && DependedOn(was, before, step) == if s.stop then found else found + DependedOn(was, before[..s.i], step)
  }

  lemma SearchBegins(ops: seq<Operation>, before: seq<nat>, step: Step, r: StepRef)
    requires Ascending(before) && forall b <- before :: b < |ops|
    ensures Searched(ops, before, step, r, Search(ops, |before|, 0, 0, false), {})
  {
    assert before[..|before|] == before;
  }

  /** One operation further back. */
  function Looked(s: Search, b: nat, step: Step, r: StepRef): Search
    requires b < |s.ops| && 0 < s.i
  {
    if step.quality in s.ops[b].qualities then
      Search(s.ops[b := s.ops[b].(dependents := s.ops[b].dependents + [r])], s.i - 1, s.depended + 1,
             s.started + if s.ops[b].state == Started then 1 else 0, step.scope == Latest)
    else s.(i := s.i - 1)
  }

  lemma SearchHits(
    was: seq<Operation>, before: seq<nat>, step: Step, r: StepRef, s: Search, found: set<nat>)
    requires Searched(was, before, step, r, s, found) && 0 < s.i && !s.stop
    requires before[s.i - 1] < |s.ops| && step.quality in s.ops[before[s.i - 1]].qualities
    ensures Searched(was, before, step, r, Looked(s, before[s.i - 1], step, r), found + {before[s.i - 1]})
  {
    hide DependedOn, WithDependents, StartedNotes, Ascending;
    var i := s.i - 1;
    var b := before[i];
    var more := found + {b};
    NotFoundYet(before, i, found);
    OneMoreDependent(was, found, r, b);
    OneMoreStarted(was, found, r, b);
    OneBack(was, before, i, step);
    assert |more| == |found| + 1;
    assert step.scope != Latest ==>
        more + DependedOn(was, before[..i], step) == found + ({b} + DependedOn(was, before[..i], step));
  }

  lemma SearchMisses(
    was: seq<Operation>, before: seq<nat>, step: Step, r: StepRef, s: Search, found: set<nat>)
    requires Searched(was, before, step, r, s, found) && 0 < s.i && !s.stop
    requires before[s.i - 1] < |s.ops| && step.quality !in s.ops[before[s.i - 1]].qualities
    ensures Searched(was, before, step, r, Looked(s, before[s.i - 1], step, r), found)
  {
    hide DependedOn, WithDependents, StartedNotes, Ascending;
    var i := s.i - 1;
    NotFoundYet(before, i, found);
    OneMoreDependent(was, found, r, before[i]);
    OneBack(was, before, i, step);
  }

  lemma SearchGoesOn(
    was: seq<Operation>, before: seq<nat>, step: Step, r: StepRef, s: Search, found: set<nat>) returns (more: set<nat>)
    requires Searched(was, before, step, r, s, found) && 0 < s.i && !s.stop
    ensures s.i <= |before| && before[s.i - 1] < |s.ops| == |was|
    ensures Searched(was, before, step, r, Looked(s, before[s.i - 1], step, r), more)
  {
    var b := before[s.i - 1];
    assert b in before;
    assert b < |s.ops|;
    hide *;
    if step.quality in s.ops[b].qualities {
      SearchHits(was, before, step, r, s, found);
      more := found + {b};
    } else {
      SearchMisses(was, before, step, r, s, found);
      more := found;
    }
  }

  lemma SearchEnds(
    was: seq<Operation>, before: seq<nat>, step: Step, r: StepRef, s: Search, found: set<nat>)
    requires Searched(was, before, step, r, s, found) && (s.i == 0 || s.stop)
    ensures found == DependedOn(was, before, step)
    ensures s.ops == WithDependents(was, found, r) && s.depended == |found|
    ensures s.started == |StartedNotes(was, found, r)|
  {
    assert before[..0] == [];
  }

  /** Nothing that is on its way goes to a step that has not been evaluated yet. */
  lemma NoneForNext(w: World, pending: set<Note>, x: nat)
    requires Inv(w, pending, x) && x < |w.ops|
    ensures |w.hist| == |w.ops| && forall n <- pending :: n.ref != StepRef(x, |w.hist[x]|)
  {
    forall n <- pending ensures n.ref != StepRef(x, |w.hist[x]|) {
      assert NoteOk(w, n);
      assert OpOk(w, pending, x, n.from);
    }
  }

  /** A step that is there belongs to an operation that has not started. */
  lemma AliveWaits(w: World, pending: set<Note>, n: Note)
    requires Inv(w, pending + {n}, -1) && n !in pending && Alive(w.ops, n.ref)
    ensures Arrives(w, pending, n) && n.from < n.ref.op < |w.ops| && |w.hist| == |w.ops|
    ensures n.ref.index < |w.hist[n.ref.op]| && n.ref.index < |w.ops[n.ref.op].chain|
  {
    assert OpOk(w, pending + {n}, -1, n.ref.op);
    ArrivalFacts(w, pending, n);
  }

  /** No operation in front of `from` has been touched but for its dependents, and the signals sent stay sent. */
  ghost predicate Onwards(w: World, v: World, from: nat) {
    && |v.ops| == |w.ops| && w.log <= v.log
    && (forall y :: 0 <= y < |w.ops| ==> v.ops[y].chain == w.ops[y].chain && v.ops[y].qualities == w.ops[y].qualities)
    && (forall y :: 0 <= y < |w.ops| && y < from ==> v.ops[y].state == w.ops[y].state)
  }

  /** What calling the starting slot of an operation comes to: whether its object is there, whether it can be invoked,
      and how many success emitters there are then. */
  datatype Slot = Slot(there: bool, invoked: bool, emitters: nat)

  /** The state an operation gets into when its chain has succeeded. */
  function Outcome(slot: Slot): (s: State)
    ensures s == Started <==> slot.there && slot.invoked && slot.emitters > 0
    ensures s == FailedNullStartSignalObject <==> !slot.there
    ensures s == FailedStartSignalInvocation <==> slot.there && !slot.invoked
    ensures s == FailedNoSuccessSignalers <==> slot.there && slot.invoked && slot.emitters == 0
  {
    if !slot.there then FailedNullStartSignalObject
    else if !slot.invoked then FailedStartSignalInvocation
    else if slot.emitters == 0 then FailedNoSuccessSignalers
    else Started
  }

  /** The state is one that the slot allows: it tells apart what was wrong with the slot, and no operation has begun
      without one that could be called and that left an emitter. */
  predicate Fits(slot: Slot, s: State) {
    && (s == FailedNullStartSignalObject ==> !slot.there)
    && (s == FailedStartSignalInvocation ==> slot.there && !slot.invoked)
    && (Began(s) ==> slot.there && slot.invoked && (s != FailedNoSuccessSignalers ==> slot.emitters > 0))
  }

  /** The state fits the slot, and a started operation has emitters left that could finish it. */
  predicate Sound(slot: Slot, s: State, emitters: int) {
    Fits(slot, s) && (s == Started ==> 0 < emitters <= slot.emitters)
  }

  /** All that may come over an operation in a cascade: nothing; or it fails for its dependencies; or, with its chain
      at the end, its slot is called and decides. */
  ghost predicate Stepped(slot: Slot, was: State, fed: int, now: State, feeds: int) {
    || (now == was && feeds == fed)
    || (was == NotStarted && now == FailedDependencies && feeds == fed)
    || (was == NotStarted && now == Outcome(slot) && feeds == if slot.there then slot.emitters else fed)
  }

  /** The emitters of the operations in front of `from` are as they were, and those from there on have gone no other way
      than a cascade may take them. */
  ghost predicate Cascaded(
    slots: nat -> Slot, was: seq<Operation>, fed: seq<int>, now: seq<Operation>, feeds: seq<int>, from: nat)
  {
    && |now| == |was| == |fed| == |feeds|
    && (forall y :: 0 <= y < |was| && y < from ==> feeds[y] == fed[y])
    && (forall y :: from <= y < |was| ==> Stepped(slots(y), was[y].state, fed[y], now[y].state, feeds[y]))
  }

  lemma SteppedThen(slot: Slot, s: State, fs: int, t: State, ft: int, u: State, fu: int)
    requires Stepped(slot, s, fs, t, ft) && Stepped(slot, t, ft, u, fu)
    ensures Stepped(slot, s, fs, u, fu)
  {
  }

  lemma CascadedThen(slots: nat -> Slot, u: World, eu: seq<int>, v: World, ev: seq<int>, w: World, ew: seq<int>,
                     from: nat, further: nat)
    requires Cascaded(slots, u.ops, eu, v.ops, ev, from) && Cascaded(slots, v.ops, ev, w.ops, ew, further)
    requires from <= further && (from < further ==> Onwards(v, w, further))
    ensures Cascaded(slots, u.ops, eu, w.ops, ew, from)
  {
    hide Stepped;
    forall y | from <= y < |u.ops|
      ensures Stepped(slots(y), u.ops[y].state, eu[y], w.ops[y].state, ew[y])
    {
      if y >= further {
        SteppedThen(slots(y), u.ops[y].state, eu[y], v.ops[y].state, ev[y], w.ops[y].state, ew[y]);
      }
    }
  }

  lemma CascadedSelf(slots: nat -> Slot, w: World, v: World, emitting: seq<int>, from: nat)
    requires |w.ops| == |v.ops| == |emitting| && forall y :: 0 <= y < |w.ops| ==> v.ops[y].state == w.ops[y].state
    ensures Cascaded(slots, w.ops, emitting, v.ops, emitting, from)
  {
  }

  /** What is sound stays sound in a cascade. */
  lemma SteppedSoundly(slot: Slot, was: State, fed: int, now: State, feeds: int)
    requires Stepped(slot, was, fed, now, feeds) && Sound(slot, was, fed)
    ensures Sound(slot, now, feeds)
  {
  }

  /** When an operation is changed and the others only follow, all are sound again, if it is. */
  lemma StaysSound(slots: nat -> Slot, w: World, fed: seq<int>, v: World, feeds: seq<int>, x: nat, from: nat)
    requires Cascaded(slots, w.ops, fed, v.ops, feeds, from) && x <= from <= x + 1
    requires Onwards(w, v, x) && x < |w.ops|
    requires forall y :: 0 <= y < |w.ops| && y != x ==> Sound(slots(y), w.ops[y].state, fed[y])
    requires Sound(slots(x), v.ops[x].state, feeds[x])
    ensures forall y :: 0 <= y < |v.ops| ==> Sound(slots(y), v.ops[y].state, feeds[y])
  {
    hide Stepped, Sound;
    forall y | 0 <= y < |v.ops|
      ensures Sound(slots(y), v.ops[y].state, feeds[y])
    {
      if y > x {
        SteppedSoundly(slots(y), w.ops[y].state, fed[y], v.ops[y].state, feeds[y]);
      }
    }
  }

  /** An operation at rest that a cascade has brought to the end of its chain has the outcome of its slot. */
  lemma SlotDecides(slots: nat -> Slot, w: World, fed: seq<int>, v: World, feeds: seq<int>, from: nat, y: nat)
    requires Cascaded(slots, w.ops, fed, v.ops, feeds, from) && Quiescent(v) && from <= y < |v.ops|
    requires w.ops[y].state == NotStarted
    ensures v.ops[y].current == |v.ops[y].chain| <==> v.ops[y].state == Outcome(slots(y))
  {
    assert OpOk(v, {}, -1, y);
  }

  lemma OnwardsThen(u: World, v: World, w: World, from: nat, further: nat)
    requires Onwards(u, v, from) && Onwards(v, w, further) && from <= further
    ensures Onwards(u, w, from)
  {
  }

  lemma OnwardsSelf(w: World, from: nat)
    ensures Onwards(w, w, from)
  {
  }

  lemma OnwardsFacts(w: World, v: World, from: nat)
    requires Onwards(w, v, from)
    ensures |v.ops| == |w.ops| && w.log <= v.log
    ensures forall y :: 0 <= y < |w.ops| ==>
              v.ops[y].chain == w.ops[y].chain && v.ops[y].qualities == w.ops[y].qualities
    ensures forall y :: 0 <= y < |w.ops| && y < from ==> v.ops[y].state == w.ops[y].state
  {
  }

  lemma ChangedOnwards(w: World, a: nat, s: State)
    requires a < |w.ops|
    ensures Onwards(w, StateChanged(w, a, s), a)
  {
  }

  lemma InvFacts(w: World, pending: set<Note>, busy: int)
    requires Inv(w, pending, busy)
    ensures |w.hist| == |w.ops|
  {
  }

  /** How many steps of its chain an operation has left, and one more. */
  ghost function Left(ops: seq<Operation>, x: nat): nat {
    if x < |ops| && ops[x].current <= |ops[x].chain| then |ops[x].chain| + 1 - ops[x].current else 0
  }

  /** What an operation that is about to evaluate a step finds. */
  lemma MayEvaluate(w: World, pending: set<Note>, x: nat)
    requires Inv(w, pending, x) && x < |w.ops| && |w.hist| == |w.ops|
    requires w.ops[x].state == NotStarted && |w.hist[x]| == w.ops[x].current
    ensures w.ops[x].current <= |w.ops[x].chain| && x in w.list && Ascending(w.list)
    ensures forall b <- w.list :: b < |w.ops|
    ensures w.ops[x].current < |w.ops[x].chain| ==> Evaluates(w, pending, x, Before(w.list, x))
  {
    assert OpOk(w, pending, x, x);
    BeforeMeans(w.list, x);
  }

  function NotesTo(a: nat, refs: seq<StepRef>, e: Event): set<Note> {
    set r | r in refs :: Note(a, r, e)
  }

  lemma OneNoteLess(a: nat, refs: seq<StepRef>, i: nat, e: Event)
    requires i < |refs| && forall j, k :: 0 <= j < k < |refs| ==> refs[j] != refs[k]
    ensures NotesTo(a, refs[i..], e) == NotesTo(a, refs[i + 1..], e) + {Note(a, refs[i], e)}
    ensures Note(a, refs[i], e) !in NotesTo(a, refs[i + 1..], e)
  {
    assert refs[i..] == [refs[i]] + refs[i + 1..];
  }

  lemma NotesToFrom(a: nat, refs: seq<StepRef>, e: Event)
    ensures forall n <- NotesTo(a, refs, e) :: n.from == a
  {
  }

  lemma NoNotes(a: nat, refs: seq<StepRef>, e: Event)
    requires refs == []
    ensures NotesTo(a, refs, e) == {}
  {
  }

  lemma NotesFromTo(w: World, a: nat)
    requires a < |w.ops|
    ensures NotesFrom(w, a) == NotesTo(a, w.ops[a].dependents, EventOf(w.ops[a].state))
  {
  }

  /** What an operation finds once its current step is registered. */
  lemma RegisteredFacts(w: World, pending: set<Note>, x: nat, before: seq<nat>)
    requires Evaluates(w, pending, x, before)
    ensures var k := w.ops[x].current;
            var r := StepRef(x, k);
            var regs := DependedOn(w.ops, before, w.ops[x].chain[k]);
            var notes := StartedNotes(w.ops, regs, r);
            var v := Registered(w, x, before);
            && pending !! notes && (forall n <- notes :: n.ref == r && n.event == EvStarted && n.from < x)
            && (regs == {} ==> notes == {} && pending + notes == pending)
            && Onwards(w, v, x) && |v.ops| == |w.ops|
            && (forall y :: 0 <= y < |w.ops| ==> v.ops[y].state == w.ops[y].state)
            && WithDependents(w.ops, regs, r)[x].chain == w.ops[x].chain
            && WithDependents(w.ops, regs, r)[x].state == NotStarted
            && WithDependents(w.ops, regs, r)[x].current == k
  {
    NoneForNext(w, pending, x);
    DependedOnIn(w.ops, before, w.ops[x].chain[w.ops[x].current]);
  }

  lemma ChangeFacts(w: World, pending: set<Note>, busy: int, a: nat, s: State)
    requires Inv(w, pending, busy) && |w.hist| == |w.ops| && MayChange(w, busy, a, s)
    ensures w.ops[a].counters.None?
    ensures forall i, j :: 0 <= i < j < |w.ops[a].dependents| ==> w.ops[a].dependents[i] != w.ops[a].dependents[j]
    ensures !Finished(w.ops[a].state) && |w.hist| == |w.ops|
  {
    assert OpOk(w, pending, busy, a);
  }

  /** All that can come of telling a step something: it succeeds, it fails, or it goes on waiting. */
  lemma Outcomes(w: World, pending: set<Note>, n: Note)
    requires Inv(w, pending + {n}, -1) && n !in pending && Alive(w.ops, n.ref)
    ensures |w.hist| == |w.ops| && n.ref.index < |w.hist[n.ref.op]| && n.ref.index < |w.ops[n.ref.op].chain|
    ensures 1 <= w.ops[n.ref.op].counters.value.required <= w.ops[n.ref.op].counters.value.remaining
    ensures var c := Counted(w.ops[n.ref.op].counters.value, w.ops[n.ref.op].chain[n.ref.index].trigger, n.event);
            if Matches(w.ops[n.ref.op].chain[n.ref.index].trigger, n.event) && c.required == 0 then
              0 <= c.remaining && EvaluatesNext(w, Delivered(w, n, None, n.ref.index + 1), pending, n.ref.op)
            else if n.event != EvStarted && c.remaining < c.required then
              FailsNext(w, Delivered(w, n, None, n.ref.index), pending, n.ref.op)
            else
              var v := Delivered(w, n, Some(c), n.ref.index);
              Inv(v, pending, -1) && Onwards(w, v, n.ref.op)
  {
    hide Inv, HistoryOk, RegOk, CondMet, Doomed, Onwards, LogOk, ListOk;
    AliveWaits(w, pending, n);
    ArrivalFacts(w, pending, n);
    StillWaits(w, pending, n);
    Succeeds(w, pending, n);
    Fails(w, pending, n);
    var x, k := n.ref.op, n.ref.index;
    DeliveredOnwards(w, n, None, k + 1);
    DeliveredOnwards(w, n, None, k);
    DeliveredOnwards(w, n, w.ops[x].counters, k);
    DeliveredOnwards(w, n, Some(Counted(w.ops[x].counters.value, w.ops[x].chain[k].trigger, n.event)), k);
  }

  lemma DeliveredOnwards(w: World, n: Note, c: Option<Counters>, next: nat)
    requires |w.hist| == |w.ops| && n.ref.op < |w.ops|
    requires n.ref.index < |w.hist[n.ref.op]| && n.ref.index < |w.ops[n.ref.op].chain|
    ensures var v := Delivered(w, n, c, next);
            && Onwards(w, v, n.ref.op)
            && forall step, regs :: Doomed(w.ops, step, regs) == Doomed(v.ops, step, regs)
  {
    SameStates(w.ops, Delivered(w, n, c, next).ops);
  }

  /** No unfinished operation in front of `x` has a quality that a step `x` has still to evaluate asks for. */
  ghost predicate NothingToAwait(ops: seq<Operation>, list: seq<nat>, x: nat)
    requires x < |ops|
  {
    forall k, b :: 0 <= ops[x].current <= k < |ops[x].chain| && b in list && b < x && b < |ops| ==>
      ops[x].chain[k].quality !in ops[b].qualities
  }

  lemma {:induction false} DependedOnOnly(ops: seq<Operation>, before: seq<nat>, step: Step)
    ensures forall a <- DependedOn(ops, before, step) :: a in before && a < |ops| && step.quality in ops[a].qualities
  {
    if before != [] {
      DependedOnOnly(ops, before[..|before| - 1], step);
    }
  }

  lemma NothingFound(ops: seq<Operation>, list: seq<nat>, x: nat)
    requires x < |ops| && ops[x].current < |ops[x].chain| && x in list && Ascending(list)
    requires NothingToAwait(ops, list, x)
    ensures DependedOn(ops, Before(list, x), ops[x].chain[ops[x].current]) == {}
  {
    BeforeMeans(list, x);
    DependedOnOnly(ops, Before(list, x), ops[x].chain[ops[x].current]);
  }

  lemma NothingFurther(ops: seq<Operation>, then_: seq<Operation>, list: seq<nat>, x: nat)
    requires x < |ops| == |then_| && NothingToAwait(ops, list, x)
    requires then_[x].chain == ops[x].chain && then_[x].current >= ops[x].current
    requires forall b :: 0 <= b < |ops| ==> then_[b].qualities == ops[b].qualities
    ensures NothingToAwait(then_, list, x)
  {
  }

  /** It succeeds only by a success signal, and fails by signal only by a failure signal. */
  predicate ToldApart(succeeds: nat -> bool, x: nat, s: State) {
    (s == Succeeded ==> succeeds(x)) && (s == FailedSignal ==> !succeeds(x)) && s != FailedAborted
  }

  ghost predicate FailsNext(w: World, v: World, pending: set<Note>, x: nat) {
    Inv(v, pending, x) && |v.hist| == |v.ops| && MayChange(v, x, x, FailedDependencies) && Onwards(w, v, x)
  }

  ghost predicate EvaluatesNext(w: World, v: World, pending: set<Note>, x: nat) {
    && Inv(v, pending, x) && x < |v.ops| && |v.hist| == |v.ops| && v.ops[x].state == NotStarted
    && |v.hist[x]| == v.ops[x].current && Left(v.ops, x) < Left(w.ops, x)
    && Onwards(w, v, x)
  }

  class Sequencer {
    var ops: seq<Operation>
    var list: seq<nat>
    /** For each operation the success emitters that are still there. */
    var emitting: seq<int>
    /** What comes of starting an operation, whenever that is. */
    const slots: nat -> Slot
    ghost var hist: seq<seq<History>>
    ghost var log: seq<Entry>

    ghost function Now(): World
      reads this
    {
      World(ops, list, hist, log)
    }

    ghost predicate Valid()
      reads this
    {
      && Quiescent(Now()) && |emitting| == |ops|
      && forall y :: 0 <= y < |ops| ==> Sound(slots(y), ops[y].state, emitting[y])
    }

    constructor (slots: nat -> Slot)
      ensures Valid() && ops == [] && log == [] && this.slots == slots
    {
      this.slots := slots;
      ops, list, emitting, hist, log := [], [], [], [], [];
    }

    // ----- steps -----

    /** Looks for the operations the current step of `x` depends on, last one first, and registers with them. */
    method Register(x: nat) returns (depended: nat, started: nat)
      requires x < |ops| && x in list && Ascending(list) && ops[x].current < |ops[x].chain|
      requires forall b <- list :: b < |ops|
      modifies this`ops
      ensures var step := old(ops)[x].chain[old(ops)[x].current];
              var r := StepRef(x, old(ops)[x].current);
              var regs := DependedOn(old(ops), Before(list, x), step);
              && ops == WithDependents(old(ops), regs, r)
              && depended == |regs| && started == |StartedNotes(old(ops), regs, r)|
    {
      hide DependedOn, WithDependents, StartedNotes, Searched, Before;
      var r := StepRef(x, ops[x].current);
      var step := ops[x].chain[ops[x].current];
      var before := Before(list, x);
      BeforeMeans(list, x);
      forall b <- before ensures b < |ops| {
        assert b in list;
      }
      ghost var was, found: set<nat> := ops, {};
      var i := |before|;
      depended, started := 0, 0;
      var stop := false;
      SearchBegins(ops, before, step, r);
      hide Ascending;
      while i > 0 && !stop
        invariant 0 <= i <= |before|
        invariant Searched(was, before, step, r, Search(ops, i, depended, started, stop), found)
        modifies this`ops
      {
        found := SearchGoesOn(was, before, step, r, Search(ops, i, depended, started, stop), found);
        i := i - 1;
        var b := before[i];
        if step.quality in ops[b].qualities {
          depended := depended + 1;
          if ops[b].state == Started {
            started := started + 1;
          }
          ops := ops[b := ops[b].(dependents := ops[b].dependents + [r])];
          if step.scope == Latest {
            stop := true;
          }
        }
      }
      SearchEnds(was, before, step, r, Search(ops, i, depended, started, stop), found);
    }

    // ----- the cascade -----

    /** Operation `a` gets into state `s`, leaves the list if that ends it, and tells what is registered on it. */
    method ChangeState(a: nat, s: State, ghost pending: set<Note>, ghost busy: int)
      requires Inv(Now(), pending, busy) && |hist| == |ops| && MayChange(Now(), busy, a, s)
      requires (forall m <- pending :: m.from < a) && |emitting| == |ops|
      modifies this
      ensures Inv(Now(), pending, -1) && |emitting| == |ops|
      ensures Cascaded(slots, old(ops), old(emitting), ops, emitting, a + 1)
      ensures Onwards(old(Now()), Now(), a) && a < |ops| && ops[a].state == s
      ensures old(log) + [if Finished(s) then End(a, s) else Start(a)] <= log
      decreases |ops| - a, 0 as nat, 1 as nat
    {
      hide Inv, Onwards;
      ghost var w := Now();
      ChangeFacts(w, pending, busy, a, s);
      ChangedInv(w, pending, busy, a, s);
      ChangedOnwards(w, a, s);
      ops := ops[a := ops[a].(state := s)];
      if s == Started {
        log := log + [Start(a)];
      } else {
        list := Without(list, a);
        log := log + [End(a, s)];
      }
      ghost var changed := Now();
      assert changed == StateChanged(w, a, s);
      NotesFromTo(changed, a);
      SignalDependents(a, ops[a].dependents, EventOf(s), pending);
      OnwardsFacts(changed, Now(), a + 1);
      OnwardsThen(w, changed, Now(), a, a + 1);
    }

    /** Tells the steps in `dependents`, the list as it was when the telling began. */
    method SignalDependents(a: nat, dependents: seq<StepRef>, event: Event, ghost pending: set<Note>)
      requires Inv(Now(), pending + NotesTo(a, dependents, event), -1)
      requires forall i, j :: 0 <= i < j < |dependents| ==> dependents[i] != dependents[j]
      requires a < |ops| && (forall m <- pending :: m.from < a) && |emitting| == |ops|
      modifies this
      ensures Inv(Now(), pending, -1) && |emitting| == |ops|
      ensures Cascaded(slots, old(ops), old(emitting), ops, emitting, a + 1)
      ensures Onwards(old(Now()), Now(), a + 1)
      decreases |ops| - a, 0 as nat, 0 as nat
    {
      hide Inv, Onwards, Alive, NotesTo, Cascaded;
      ghost var w, fed := Now(), emitting;
      CascadedSelf(slots, w, w, fed, a + 1);
      var i := 0;
      assert dependents[0..] == dependents;
      OnwardsSelf(w, a + 1);
      while i < |dependents|
        invariant i <= |dependents|
        invariant Inv(Now(), pending + NotesTo(a, dependents[i..], event), -1) && |emitting| == |ops|
        invariant Onwards(w, Now(), a + 1) && |ops| == |w.ops|
        invariant Cascaded(slots, w.ops, fed, ops, emitting, a + 1)
      {
        var r := dependents[i];
        ghost var n, rest := Note(a, r, event), pending + NotesTo(a, dependents[i + 1..], event);
        OneNoteLess(a, dependents, i, event);
        NotesToFrom(a, dependents[i + 1..], event);
        assert pending + NotesTo(a, dependents[i..], event) == rest + {n};
        assert n !in rest;
        if Alive(ops, r) {
          ghost var before, feeds := Now(), emitting;
          AliveWaits(before, rest, n);
          Deliver(r, event, a, rest);
          OnwardsFacts(before, Now(), r.op);
          OnwardsThen(w, before, Now(), a + 1, r.op);
          CascadedThen(slots, w, fed, before, feeds, Now(), emitting, a + 1, r.op);
        } else {
          ArrivesTooLate(Now(), rest, -1, n);
        }
        i := i + 1;
      }
      NoNotes(a, dependents[i..], event);
      assert pending + NotesTo(a, dependents[i..], event) == pending;
    }

    /** A step that is still there is told that an operation it is registered on started or finished. */
    method Deliver(r: StepRef, event: Event, ghost from: nat, ghost pending: set<Note>)
      requires Inv(Now(), pending + {Note(from, r, event)}, -1) && Note(from, r, event) !in pending && Alive(ops, r)
      requires (forall m <- pending :: m.from < r.op) && |emitting| == |ops|
      modifies this
      ensures Inv(Now(), pending, -1) && |emitting| == |ops|
      ensures Cascaded(slots, old(ops), old(emitting), ops, emitting, r.op)
      ensures Onwards(old(Now()), Now(), r.op)
      decreases |ops| - r.op, Left(ops, r.op), 4 as nat
    {
      hide Inv, Onwards, EvaluatesNext, FailsNext;
      ghost var w, n := Now(), Note(from, r, event);
      Outcomes(w, pending, n);
      var x := r.op;
      var step := ops[x].chain[r.index];
      var required, remaining := ops[x].counters.value.required, ops[x].counters.value.remaining;
      if Matches(step.trigger, event) {
        required := required - 1;
        if required == 0 {
          assert event != EvStarted ==> remaining - 1 >= required;
          StepSucceeded(r, n, pending);
          return;
        }
      }
      if event != EvStarted {
        remaining := remaining - 1;
        if remaining < required {
          StepFailed(r, n, pending);
          return;
        }
      }
      ops := ops[x := ops[x].(counters := Some(Counters(required, remaining)))];
      hist := hist[x := hist[x][r.index := Told(hist[x][r.index], step.trigger, n)]];
      assert Now() == Delivered(w, n, Some(Counters(required, remaining)), r.index);
    }

    /** The chain goes on to its next step. */
    method StepSucceeded(r: StepRef, ghost n: Note, ghost pending: set<Note>)
      requires |ops| == |hist| && r.op < |ops| && n.ref == r
      requires r.index < |hist[r.op]| && r.index < |ops[r.op].chain| && ops[r.op].current == r.index
      requires EvaluatesNext(Now(), Delivered(Now(), n, None, r.index + 1), pending, r.op)
      requires (forall m <- pending :: m.from < r.op) && |emitting| == |ops|
      modifies this
      ensures Inv(Now(), pending, -1) && |emitting| == |ops|
      ensures Cascaded(slots, old(ops), old(emitting), ops, emitting, r.op)
      ensures Onwards(old(Now()), Now(), r.op)
      decreases |ops| - r.op, Left(ops, r.op), 3 as nat
    {
      hide Inv, Onwards, Left;
      var x := r.op;
      ghost var w := Now();
      hist := hist[x := hist[x][r.index := Told(hist[x][r.index], ops[x].chain[r.index].trigger, n)]];
      ops := ops[x := ops[x].(counters := None, current := ops[x].current + 1)];
      ghost var next := Now();
      assert next == Delivered(w, n, None, r.index + 1);
      EvaluateCurrentStep(x, pending);
      OnwardsThen(w, next, Now(), x, x);
    }

    /** The chain gives up, and the operation with it. */
    method StepFailed(r: StepRef, ghost n: Note, ghost pending: set<Note>)
      requires |ops| == |hist| && r.op < |ops| && n.ref == r
      requires r.index < |hist[r.op]| && r.index < |ops[r.op].chain| && ops[r.op].current == r.index
      requires FailsNext(Now(), Delivered(Now(), n, None, r.index), pending, r.op)
      requires (forall m <- pending :: m.from < r.op) && |emitting| == |ops|
      modifies this
      ensures Inv(Now(), pending, -1) && |emitting| == |ops|
      ensures Cascaded(slots, old(ops), old(emitting), ops, emitting, r.op)
      ensures Onwards(old(Now()), Now(), r.op)
      decreases |ops| - r.op, 0 as nat, 3 as nat
    {
      hide Inv, Onwards, MayChange;
      var x := r.op;
      ghost var w := Now();
      hist := hist[x := hist[x][r.index := Told(hist[x][r.index], ops[x].chain[r.index].trigger, n)]];
      ops := ops[x := ops[x].(counters := None)];
      ghost var next := Now();
      assert next == Delivered(w, n, None, r.index);
      Fail(x, pending);
      OnwardsThen(w, next, Now(), x, x);
    }

    /** The step is told of one operation that has started, if it is still there. */
    method TellOne(r: StepRef, ghost n: Note, ghost rest: set<Note>)
      requires Inv(Now(), rest + {n}, -1) && n !in rest && n == Note(n.from, r, EvStarted)
      requires (forall m <- rest :: m.from < r.op) && |emitting| == |ops|
      requires r.op < |ops|
      modifies this
      ensures Inv(Now(), rest, -1) && |emitting| == |ops|
      ensures Cascaded(slots, old(ops), old(emitting), ops, emitting, r.op)
      ensures Onwards(old(Now()), Now(), r.op)
      decreases |ops| - r.op, if Alive(ops, r) then Left(ops, r.op) else 0, 5 as nat
    {
      hide Inv, Onwards, Cascaded;
      if Alive(ops, r) {
        Deliver(r, EvStarted, n.from, rest);
      } else {
        OnwardsSelf(Now(), r.op);
        CascadedSelf(slots, Now(), Now(), emitting, r.op);
        ArrivesTooLate(Now(), rest, -1, n);
      }
    }

    /** The current step of `x`, just registered, is told of those that have started already. */
    method TellStarted(r: StepRef, started: nat, ghost notes: set<Note>, ghost pending: set<Note>)
      requires Inv(Now(), pending + notes, -1) && pending !! notes && started == |notes|
      requires forall n <- notes :: n.ref == r && n.event == EvStarted && n.from < r.op
      requires (forall m <- pending :: m.from < r.op) && |emitting| == |ops|
      requires r.op < |ops| && ops[r.op].current == r.index
      modifies this
      ensures Inv(Now(), pending, -1) && |emitting| == |ops|
      ensures Cascaded(slots, old(ops), old(emitting), ops, emitting, r.op)
      ensures Onwards(old(Now()), Now(), r.op)
      decreases |ops| - r.op, Left(ops, r.op), 6 as nat
    {
      hide Inv, Onwards, Cascaded;
      ghost var w, fed := Now(), emitting;
      OnwardsSelf(w, r.op);
      CascadedSelf(slots, w, w, fed, r.op);
      var count := started;
      ghost var left := notes;
      while count > 0
        invariant left <= notes && count == |left|
        invariant Inv(Now(), pending + left, -1) && |emitting| == |ops|
        invariant Cascaded(slots, w.ops, fed, ops, emitting, r.op)
        invariant Onwards(w, Now(), r.op) && |ops| == |w.ops| && ops[r.op].chain == w.ops[r.op].chain
      {
        ghost var n :| n in left;
        ghost var others := left - {n};
        ghost var rest := pending + others;
        assert pending + left == rest + {n};
        assert n == Note(n.from, r, EvStarted);
        left := others;
        ghost var before, feeds := Now(), emitting;
        TellOne(r, n, rest);
        OnwardsFacts(before, Now(), r.op);
        OnwardsThen(w, before, Now(), r.op, r.op);
        CascadedThen(slots, w, fed, before, feeds, Now(), emitting, r.op, r.op);
        count := count - 1;
      }
      assert pending + left == pending;
    }

    /** Registers the current step of `x` on what it depends on, or goes on to the next one, or starts the operation. */
    method EvaluateCurrentStep(x: nat, ghost pending: set<Note>)
      requires Inv(Now(), pending, x) && x < |ops| && |hist| == |ops|
      requires ops[x].state == NotStarted && |hist[x]| == ops[x].current
      requires (forall m <- pending :: m.from < x) && |emitting| == |ops|
      modifies this
      ensures Inv(Now(), pending, -1) && |emitting| == |ops|
      ensures Cascaded(slots, old(ops), old(emitting), ops, emitting, x)
      ensures Onwards(old(Now()), Now(), x)
      ensures NothingToAwait(old(ops), old(list), x) ==> x < |ops| && ops[x].state == Outcome(slots(x))
      decreases |ops| - x, Left(ops, x), 7 as nat
    {
      hide Inv, Onwards, Evaluates, WithDependents, DependedOn, StartedNotes, Before, Cascaded, NothingToAwait;
      ghost var w := Now();
      MayEvaluate(w, pending, x);
      if ops[x].current == |ops[x].chain| {
        Begin(x, pending);
        return;
      }
      if NothingToAwait(ops, list, x) {
        NothingFound(ops, list, x);
      }
      var k := ops[x].current;
      var step := ops[x].chain[k];
      ghost var before, r := Before(list, x), StepRef(x, k);
      ghost var regs := DependedOn(ops, before, step);
      ghost var notes := StartedNotes(ops, regs, r);
      RegisteredInv(w, pending, x, before);
      RegisteredFacts(w, pending, x, before);
      ghost var fed := emitting;
      CascadedSelf(slots, w, Registered(w, x, before), fed, x);
      var depended, started := Register(x);
      hist := hist[x := hist[x] + [History(before, |log|, regs, regs, {})]];
      if depended > 0 {
        ops := ops[x := ops[x].(counters := Some(Counters(Need(step.scope, depended), depended)))];
        ghost var next := Now();
        assert next == Registered(w, x, before);
        TellStarted(StepRef(x, k), started, notes, pending);
        OnwardsThen(w, next, Now(), x, x);
        CascadedThen(slots, w, fed, next, fed, Now(), emitting, x, x);
      } else {
        assert regs == {};
        ops := ops[x := ops[x].(counters := None, current := k + 1)];
        ghost var next := Now();
        assert next == Registered(w, x, before);
        if NothingToAwait(w.ops, list, x) {
          OnwardsFacts(w, next, x);
          NothingFurther(w.ops, ops, list, x);
        }
        EvaluateCurrentStep(x, pending);
        OnwardsThen(w, next, Now(), x, x);
        CascadedThen(slots, w, fed, next, fed, Now(), emitting, x, x);
      }
    }

    /** The chain has succeeded: the starting slot is called, which may be gone or fail. */
    method Begin(x: nat, ghost pending: set<Note>)
      requires Inv(Now(), pending, x) && x < |ops| && |hist| == |ops|
      requires ops[x].state == NotStarted && ops[x].current == |ops[x].chain|
      requires (forall m <- pending :: m.from < x) && |emitting| == |ops|
      modifies this
      ensures Inv(Now(), pending, -1) && |emitting| == |ops|
      ensures Cascaded(slots, old(ops), old(emitting), ops, emitting, x)
      ensures Onwards(old(Now()), Now(), x) && x < |ops| && ops[x].state == Outcome(slots(x))
      decreases |ops| - x, 0 as nat, 3 as nat
    {
      hide Inv, Onwards;
      ghost var w, fed := Now(), emitting;
      var state := FailedNullStartSignalObject;
      if slots(x).there {
        emitting := emitting[x := slots(x).emitters];
        state := if slots(x).invoked then Started else FailedStartSignalInvocation;
      }
      ChangeState(x, state, pending, x);
      if ops[x].state == Started {
        ghost var next := Now();
        OnwardsFacts(w, next, x);
        CheckRemainingSuccessSignalers(x, pending);
        OnwardsThen(w, next, Now(), x, x);
      }
    }

    method CheckRemainingSuccessSignalers(x: nat, ghost pending: set<Note>)
      requires Inv(Now(), pending, -1) && x < |ops| && ops[x].state != NotStarted
      requires (forall m <- pending :: m.from < x) && |emitting| == |ops|
      modifies this
      ensures Inv(Now(), pending, -1) && |emitting| == |ops|
      ensures Cascaded(slots, old(ops), old(emitting), ops, emitting, x + 1)
      ensures Onwards(old(Now()), Now(), x) && x < |ops|
      ensures old(ops[x].state) == Started && old(emitting[x]) == 0 ==> ops[x].state == FailedNoSuccessSignalers
      ensures !(old(ops[x].state) == Started && old(emitting[x]) == 0) ==>
              Now() == old(Now()) && emitting == old(emitting)
      decreases |ops| - x, 0 as nat, 2 as nat
    {
      hide Inv, Onwards;
      OnwardsSelf(Now(), x);
      InvFacts(Now(), pending, -1);
      if Finished(ops[x].state) || emitting[x] != 0 {
        return;
      }
      ChangeState(x, FailedNoSuccessSignalers, pending, -1);
    }

    method Fail(x: nat, ghost pending: set<Note>)
      requires Inv(Now(), pending, x) && |hist| == |ops| && MayChange(Now(), x, x, FailedDependencies)
      requires (forall m <- pending :: m.from < x) && |emitting| == |ops|
      modifies this
      ensures Inv(Now(), pending, -1) && |emitting| == |ops|
      ensures Cascaded(slots, old(ops), old(emitting), ops, emitting, x)
      ensures Onwards(old(Now()), Now(), x)
      decreases |ops| - x, 0 as nat, 2 as nat
    {
      hide Inv, Onwards;
      ChangeState(x, FailedDependencies, pending, x);
    }

    // ----- what comes from outside -----

    /** A new operation at the end of the list; it starts at once if its conditions allow. */
    method AddOperation(qualities: set<string>, chain: seq<Step>) returns (x: nat)
      requires Valid()
      modifies this
      ensures Valid() && x == old(|ops|) && |ops| == x + 1 && old(log) <= log
      ensures |emitting| == |ops| && emitting[..x] == old(emitting)
      ensures ops[x].qualities == qualities && ops[x].chain == chain
      ensures forall y :: 0 <= y < x ==> ops[y].state == old(ops[y].state)
      ensures Stepped(slots(x), NotStarted, 0, ops[x].state, emitting[x])
      ensures ops[x].current == |chain| <==> ops[x].state == Outcome(slots(x))
      ensures (forall k, b :: 0 <= k < |chain| && b in old(list) && b < |old(ops)| ==>
                chain[k].quality !in old(ops)[b].qualities) ==>
                ops[x].state == Outcome(slots(x))
    {
      hide Inv, Onwards;
      ghost var w := Now();
      InvFacts(w, {}, -1);
      AddedInv(w, qualities, chain);
      x := |ops|;
      ops := ops + [Operation(qualities, chain, NotStarted, 0, None, [])];
      list := list + [x];
      emitting := emitting + [0];
      hist := hist + [[]];
      ghost var next := Now();
      assert next == Added(w, qualities, chain);
      ghost var fed := emitting;
      EvaluateCurrentStep(x, {});
      OnwardsFacts(next, Now(), x);
      StaysSound(slots, next, fed, Now(), emitting, x, x);
      SlotDecides(slots, next, fed, Now(), emitting, x, x);
    }

    /** One of its success signals reaches a started operation. */
    method Success(x: nat)
      requires Valid() && x < |ops|
      modifies this
      ensures Valid() && Onwards(old(Now()), Now(), x) && x < |ops|
      ensures Cascaded(slots, old(ops), old(emitting), ops, emitting, x + 1)
      ensures old(ops[x].state) == Started ==> ops[x].state == Succeeded && old(log) + [End(x, Succeeded)] <= log
      ensures old(ops[x].state) != Started ==> Now() == old(Now())
    {
      hide Inv, Onwards;
      OnwardsSelf(Now(), x);
      CascadedSelf(slots, Now(), Now(), emitting, x + 1);
      InvFacts(Now(), {}, -1);
      if ops[x].state == Started {
        ghost var w, fed := Now(), emitting;
        ChangeState(x, Succeeded, {}, -1);
        StaysSound(slots, w, fed, Now(), emitting, x, x + 1);
      }
    }

    method Failure(x: nat)
      requires Valid() && x < |ops|
      modifies this
      ensures Valid() && Onwards(old(Now()), Now(), x) && x < |ops|
      ensures Cascaded(slots, old(ops), old(emitting), ops, emitting, x + 1)
      ensures old(ops[x].state) == Started ==> ops[x].state == FailedSignal && old(log) + [End(x, FailedSignal)] <= log
      ensures old(ops[x].state) != Started ==> Now() == old(Now())
    {
      hide Inv, Onwards;
      OnwardsSelf(Now(), x);
      CascadedSelf(slots, Now(), Now(), emitting, x + 1);
      InvFacts(Now(), {}, -1);
      if ops[x].state == Started {
        ghost var w, fed := Now(), emitting;
        ChangeState(x, FailedSignal, {}, -1);
        StaysSound(slots, w, fed, Now(), emitting, x, x + 1);
      }
    }

    method Abort(x: nat)
      requires Valid() && x < |ops| && ops[x].state != NotStarted
      modifies this
      ensures Valid() && Onwards(old(Now()), Now(), x) && x < |ops|
      ensures Cascaded(slots, old(ops), old(emitting), ops, emitting, x + 1)
      ensures old(ops[x].state) == Started ==>
              ops[x].state == FailedAborted && old(log) + [End(x, FailedAborted)] <= log
      ensures old(ops[x].state) != Started ==> Now() == old(Now())
    {
      hide Inv, Onwards;
      OnwardsSelf(Now(), x);
      CascadedSelf(slots, Now(), Now(), emitting, x + 1);
      InvFacts(Now(), {}, -1);
      if !Finished(ops[x].state) {
        ghost var w, fed := Now(), emitting;
        ChangeState(x, FailedAborted, {}, -1);
        StaysSound(slots, w, fed, Now(), emitting, x, x + 1);
      }
    }

    /** An object that could have emitted a success signal is gone; the last one fails the operation. */
    method Destroyed(x: nat)
      requires Valid() && x < |ops| && ops[x].state != NotStarted
      modifies this
      ensures Valid() && Onwards(old(Now()), Now(), x) && x < |ops|
      ensures Cascaded(slots, old(ops), old(emitting)[x := old(emitting)[x] - 1], ops, emitting, x + 1)
      ensures old(ops[x].state) == Started && old(emitting[x]) == 1 ==> ops[x].state == FailedNoSuccessSignalers
      ensures !(old(ops[x].state) == Started && old(emitting[x]) == 1) ==> Now() == old(Now())
    {
      hide Inv, Onwards;
      ghost var w, fed := Now(), emitting[x := emitting[x] - 1];
      emitting := emitting[x := emitting[x] - 1];
      CheckRemainingSuccessSignalers(x, {});
      StaysSound(slots, w, fed, Now(), emitting, x, x + 1);
    }

    /** Whatever signals come, one for the first operation of the list at a time: the list runs empty. */
    method RunDry(succeeds: nat -> bool)
      requires Valid()
      modifies this
      ensures Valid() && list == [] && old(log) <= log && |ops| == old(|ops|)
      ensures forall x :: 0 <= x < |ops| ==> Finished(ops[x].state)
      ensures forall x :: 0 <= x < old(|ops|) && ops[x].state != old(ops[x].state) ==>
                ToldApart(succeeds, x, ops[x].state)
    {
      hide Inv, Onwards;
      while list != []
        invariant Valid() && old(log) <= log && |ops| == old(|ops|)
        invariant forall y :: 0 <= y < |ops| && ops[y].state != old(ops[y].state) ==>
                    ToldApart(succeeds, y, ops[y].state)
        decreases |list|
      {
        ghost var w := Now();
        var x := list[0];
        FirstHasStarted(w);
        if succeeds(x) {
          Success(x);
        } else {
          Failure(x);
        }
        OnwardsFacts(w, Now(), x);
        ListShrinks(w, Now(), x);
      }
      NoneUnfinished(Now());
    }
  }

  function SetOf(list: seq<nat>): set<nat> {
    if list == [] then {} else SetOf(list[..|list| - 1]) + {list[|list| - 1]}
  }

  lemma {:induction false} SetOfMeans(list: seq<nat>)
    requires Ascending(list)
    ensures |SetOf(list)| == |list| && forall a: nat :: a in SetOf(list) <==> a in list
  {
    if list != [] {
      var front, last := list[..|list| - 1], list[|list| - 1];
      SetOfMeans(front);
      assert list == front + [last];
      assert last !in front;
    }
  }

  /** What has finished does not come back into the list. */
  lemma ListShrinks(w: World, v: World, x: nat)
    requires Quiescent(w) && Quiescent(v) && |v.ops| == |w.ops| && w.log <= v.log
    requires x in w.list && x < |v.ops| && Finished(v.ops[x].state)
    ensures |v.list| < |w.list|
  {
    hide OpOk;
    SetOfMeans(v.list);
    SetOfMeans(w.list);
    forall a | a in SetOf(v.list)
      ensures a in SetOf(w.list) - {x}
    {
      if Finished(w.ops[a].state) {
        StaysFinished(w, v, a);
      }
    }
    Smaller(SetOf(v.list), SetOf(w.list) - {x});
  }

  /** What has finished has the same outcome for good. */
  lemma StaysFinished(w: World, v: World, a: nat)
    requires Quiescent(w) && Quiescent(v) && |v.ops| == |w.ops| && w.log <= v.log
    requires a < |w.ops| && Finished(w.ops[a].state)
    ensures v.ops[a].state == w.ops[a].state && a !in v.list
  {
    assert End(a, w.ops[a].state) in w.log;
    assert End(a, w.ops[a].state) in v.log;
  }

  lemma NoneUnfinished(w: World)
    requires Quiescent(w) && w.list == []
    ensures forall x :: 0 <= x < |w.ops| ==> Finished(w.ops[x].state)
  {
    forall x | 0 <= x < |w.ops|
      ensures Finished(w.ops[x].state)
    {
      assert x !in w.list;
    }
  }
}
