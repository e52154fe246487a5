/**
 The sequencer as a set of values: operations, the list of unfinished ones, what each evaluated
 step was registered on, and the signals sent. States what always holds of them, also in the
 middle of a cascade while some notifications are still on their way.
 */
module SequencerWorld {
  import opened Options

  // ----- conditions and states -----

  datatype Scope = All | Any | Latest
  datatype Trigger = OnStarted | OnSucceeded | OnFailed | OnFinished
  datatype Step = Step(scope: Scope, trigger: Trigger, quality: string)

  datatype State =
    | NotStarted | Started | Succeeded
    | FailedSignal | FailedDependencies | FailedNullStartSignalObject
    | FailedStartSignalInvocation | FailedNoSuccessSignalers | FailedAborted

  predicate Finished(s: State) {
    s != NotStarted && s != Started
  }

  /** The operation has been in state Started. */
  predicate Began(s: State) {
    s == Started || s == Succeeded || s == FailedSignal || s == FailedNoSuccessSignalers || s == FailedAborted
  }

  datatype Event = EvStarted | EvSucceeded | EvFailed

  /** The event dependents are told of when an operation gets into a state. */
  function EventOf(s: State): Event {
    if s == Succeeded then EvSucceeded else if s == Started then EvStarted else EvFailed
  }

  predicate Matches(t: Trigger, e: Event) {
    match t
    case OnStarted => e == EvStarted
    case OnSucceeded => e == EvSucceeded
    case OnFailed => e == EvFailed
    case OnFinished => e != EvStarted
  }

  /** An operation that got into state `s` has fulfilled the trigger. */
  predicate Met(t: Trigger, s: State) {
    match t
    case OnStarted => Began(s)
    case OnSucceeded => s == Succeeded
    case OnFailed => Finished(s) && s != Succeeded
    case OnFinished => Finished(s)
  }

  /** How many sub-objects must match, of `count`. */
  function Need(scope: Scope, count: nat): nat {
    if scope == All then count else 1
  }

  lemma Smaller(a: set<nat>, b: set<nat>)
    requires a <= b
    ensures |a| <= |b|
  {
    assert b == a + (b - a);
  }

  // ----- the world -----

  datatype StepRef = StepRef(op: nat, index: nat)
  datatype Counters = Counters(required: int, remaining: int)

  datatype Operation = Operation(
    qualities: set<string>, chain: seq<Step>, state: State, current: nat, counters: Option<Counters>,
    dependents: seq<StepRef>)

  /** What is remembered of one evaluated step: the unfinished operations before its own at that time, the
      length of the log then, the operations it was registered on, those of them whose end it has not been
      told of, and those that have matched. */
  datatype History = History(before: seq<nat>, since: nat, regs: set<nat>, open: set<nat>, got: set<nat>)

  /** A public signal: the operation has started, or has finished one way or the other. */
  datatype Entry = Start(op: nat) | End(op: nat, outcome: State)

  /** A notification on its way from an operation to a step registered on it. */
  datatype Note = Note(from: nat, ref: StepRef, event: Event)

  datatype World = World(ops: seq<Operation>, list: seq<nat>, hist: seq<seq<History>>, log: seq<Entry>)

  predicate Alive(ops: seq<Operation>, r: StepRef) {
    r.op < |ops| && ops[r.op].counters.Some? && ops[r.op].current == r.index
  }

  /** The operations of `before` a step depends on: all with the quality, or only the last of them. */
  function DependedOn(ops: seq<Operation>, before: seq<nat>, step: Step): set<nat> {
    if before == [] then {}
    else
      var last, rest := before[|before| - 1], before[..|before| - 1];
      if last < |ops| && step.quality in ops[last].qualities
      then if step.scope == Latest then {last} else {last} + DependedOn(ops, rest, step)
      else DependedOn(ops, rest, step)
  }

  ghost predicate MetBy(ops: seq<Operation>, t: Trigger, a: nat) {
    a < |ops| && Met(t, ops[a].state)
  }

  ghost predicate LostBy(ops: seq<Operation>, t: Trigger, a: nat) {
    a < |ops| && Finished(ops[a].state) && !Met(t, ops[a].state)
  }

  /** The condition of a step is met by the states of the operations it was registered on. */
  ghost predicate CondMet(ops: seq<Operation>, step: Step, regs: set<nat>) {
    if step.scope == All then forall a <- regs :: MetBy(ops, step.trigger, a)
    else exists a <- regs :: MetBy(ops, step.trigger, a)
  }

  /** The condition cannot be met any more, whatever the operations do. */
  ghost predicate Doomed(ops: seq<Operation>, step: Step, regs: set<nat>) {
    if step.scope == All then exists a <- regs :: LostBy(ops, step.trigger, a)
    else forall a <- regs :: LostBy(ops, step.trigger, a)
  }

  // ----- conditions read off the log -----

  ghost predicate EndedIn(log: seq<Entry>, a: nat) {
    exists s :: End(a, s) in log
  }

  ghost predicate MetIn(log: seq<Entry>, t: Trigger, a: nat) {
    match t
    case OnStarted => Start(a) in log
    case OnSucceeded => End(a, Succeeded) in log
    case OnFailed => exists s :: s != Succeeded && End(a, s) in log
    case OnFinished => EndedIn(log, a)
  }

  ghost predicate LostIn(log: seq<Entry>, t: Trigger, a: nat) {
    EndedIn(log, a) && !MetIn(log, t, a)
  }

  /** All steps of the chain were registered on nothing, or have had their conditions met. */
  ghost predicate ReadyBy(log: seq<Entry>, chain: seq<Step>, hist: seq<History>) {
    && |hist| == |chain|
    && forall k :: 0 <= k < |chain| && hist[k].regs != {} ==>
         if chain[k].scope == All then forall a <- hist[k].regs :: MetIn(log, chain[k].trigger, a)
         else exists a <- hist[k].regs :: MetIn(log, chain[k].trigger, a)
  }

  /** The condition of the last evaluated step cannot be met any more. */
  ghost predicate HopelessBy(log: seq<Entry>, chain: seq<Step>, hist: seq<History>) {
    && 0 < |hist| <= |chain|
    && var k := |hist| - 1;
       if chain[k].scope == All then exists a <- hist[k].regs :: LostIn(log, chain[k].trigger, a)
       else forall a <- hist[k].regs :: LostIn(log, chain[k].trigger, a)
  }

  // ----- what always holds -----

  predicate Ascending(s: seq<nat>) {
    forall i, j :: 0 <= i < j < |s| ==> s[i] < s[j]
  }

  ghost predicate ListOk(w: World) {
    && Ascending(w.list)
    && (forall a :: a in w.list <==> 0 <= a < |w.ops| && !Finished(w.ops[a].state))
  }

  /** Each operation starts and ends at most once, and never ends before it starts. */
  ghost predicate LogOk(w: World) {
    && (forall i, j :: 0 <= i < j < |w.log| ==> w.log[i] != w.log[j])
    && (forall i, j :: 0 <= i < j < |w.log| && w.log[i].End? ==> w.log[j] != Start(w.log[i].op))
    && (forall a: nat :: Start(a) in w.log <==> a < |w.ops| && Began(w.ops[a].state))
    && (forall a: nat, s :: End(a, s) in w.log <==> a < |w.ops| && Finished(s) && w.ops[a].state == s)
  }

  ghost predicate NoteOk(w: World, n: Note)
    requires |w.hist| == |w.ops|
  {
    && n.from < |w.ops|
    && n.ref in w.ops[n.from].dependents
    && w.ops[n.from].state != NotStarted
    && n.event == EventOf(w.ops[n.from].state)
    && (Alive(w.ops, n.ref) && n.ref.index < |w.hist[n.ref.op]| && n.ref.index < |w.ops[n.ref.op].chain| ==>
          var h := w.hist[n.ref.op][n.ref.index];
          && (n.event != EvStarted ==> n.from in h.open)
          && (Matches(w.ops[n.ref.op].chain[n.ref.index].trigger, n.event) ==> n.from !in h.got))
  }

  ghost predicate DependentsOk(w: World, a: nat)
    requires |w.hist| == |w.ops| && a < |w.ops|
  {
    && (forall i, j :: 0 <= i < j < |w.ops[a].dependents| ==> w.ops[a].dependents[i] != w.ops[a].dependents[j])
    && forall r <- w.ops[a].dependents ::
         a < r.op < |w.ops| && r.index < |w.hist[r.op]| && a in w.hist[r.op][r.index].regs
  }

  /** What is remembered of step `k` is right: it was registered on the operations with its quality (or the last of
      them) among all earlier ones that had not finished by then. */
  ghost predicate HistoryOk(w: World, x: nat, k: nat)
    requires |w.hist| == |w.ops| && x < |w.ops| && k < |w.hist[x]| && k < |w.ops[x].chain|
  {
    var h := w.hist[x][k];
    && h.since <= |w.log|
    && Ascending(h.before)
    && (forall b: nat :: b in h.before <==> b < x && !EndedIn(w.log[..h.since], b))
    && h.regs == DependedOn(w.ops, h.before, w.ops[x].chain[k])
    && h.open <= h.regs && h.got <= h.regs
    && forall a <- h.regs :: a < x && StepRef(x, k) in w.ops[a].dependents
  }

  /** The steps in front of the current one were empty or had their conditions met. */
  ghost predicate PassedOk(w: World, x: nat)
    requires |w.hist| == |w.ops| && x < |w.ops|
  {
    && w.ops[x].current <= |w.ops[x].chain|
    && w.ops[x].current <= |w.hist[x]| <= w.ops[x].current + 1
    && |w.hist[x]| <= |w.ops[x].chain|
    && (forall k :: 0 <= k < |w.hist[x]| ==> HistoryOk(w, x, k))
    && (forall k :: 0 <= k < w.ops[x].current ==>
          w.hist[x][k].regs == {} || CondMet(w.ops, w.ops[x].chain[k], w.hist[x][k].regs))
  }

  /** What must be so of an operation that has left state NotStarted. */
  ghost predicate OutcomeOk(w: World, x: nat)
    requires |w.hist| == |w.ops| && x < |w.ops| && PassedOk(w, x)
  {
    var o := w.ops[x];
    && (o.state != NotStarted && o.state != FailedDependencies ==> o.current == |o.chain|)
    && (o.state == FailedDependencies ==>
          o.current < |w.hist[x]| && Doomed(w.ops, o.chain[o.current], w.hist[x][o.current].regs))
  }

  /** The operation started, or failed for its dependencies, at a moment when that was right. */
  ghost predicate LoggedOk(w: World, x: nat)
    requires |w.hist| == |w.ops| && x < |w.ops|
  {
    var o := w.ops[x];
    && (forall i :: 0 <= i < |w.log| && w.log[i] == Start(x) ==> ReadyBy(w.log[..i], o.chain, w.hist[x]))
    && (forall i :: 0 <= i < |w.log| && w.log[i] == End(x, FailedDependencies) ==>
          HopelessBy(w.log[..i], o.chain, w.hist[x]))
  }

  /** One operation a waiting step was registered on. */
  ghost predicate RegOk(w: World, pending: set<Note>, x: nat, a: nat)
    requires |w.hist| == |w.ops| && x < |w.ops|
    requires w.ops[x].current < |w.hist[x]| && w.ops[x].current < |w.ops[x].chain|
  {
    var k := w.ops[x].current;
    var h := w.hist[x][k];
    var t := w.ops[x].chain[k].trigger;
    a < |w.ops| &&
    var s := w.ops[a].state;
    && (a !in h.open ==> Finished(s))
    && (a in h.open && Finished(s) ==> Note(a, StepRef(x, k), EventOf(s)) in pending)
    && (a in h.got ==> Met(t, s))
    && (Met(t, s) && a !in h.got ==> Matches(t, EventOf(s)) && Note(a, StepRef(x, k), EventOf(s)) in pending)
  }

  /** A waiting operation: the counters of its step count what the step has still to be told. */
  ghost predicate WaitingOk(w: World, pending: set<Note>, x: nat)
    requires |w.hist| == |w.ops| && x < |w.ops|
  {
    var o := w.ops[x];
    && o.counters.Some? && o.current < |o.chain| && |w.hist[x]| == o.current + 1
    && var h := w.hist[x][o.current];
    && o.counters.value == Counters(Need(o.chain[o.current].scope, |h.regs|) - |h.got|, |h.open|)
    && 1 <= o.counters.value.required <= o.counters.value.remaining
    && forall a <- h.regs :: RegOk(w, pending, x, a)
  }

  /** `busy` is the one operation, if any, that is between two steps. */
  ghost predicate PhaseOk(w: World, pending: set<Note>, busy: int, x: nat)
    requires |w.hist| == |w.ops| && x < |w.ops|
  {
    if w.ops[x].state == NotStarted && x != busy then WaitingOk(w, pending, x)
    else w.ops[x].counters.None?
  }

  ghost predicate OpOk(w: World, pending: set<Note>, busy: int, x: nat)
    requires |w.hist| == |w.ops| && x < |w.ops|
  {
    DependentsOk(w, x) && PassedOk(w, x) && OutcomeOk(w, x) && LoggedOk(w, x) && PhaseOk(w, pending, busy, x)
  }

  ghost predicate Inv(w: World, pending: set<Note>, busy: int) {
    && |w.hist| == |w.ops|
    && ListOk(w) && LogOk(w)
    && (forall n <- pending :: NoteOk(w, n))
    && (forall x :: 0 <= x < |w.ops| ==> OpOk(w, pending, busy, x))
  }

  /** Nothing is on its way and no operation is between two steps. */
  ghost predicate Quiescent(w: World) {
    Inv(w, {}, -1)
  }

  // ----- what follows in a quiescent world -----

  /** An operation that waits does so for an earlier one that has not finished. */
  lemma WaitsForEarlier(w: World, x: nat) returns (a: nat)
    requires Quiescent(w) && x in w.list && w.ops[x].state == NotStarted
    ensures a < x && a in w.list && !Finished(w.ops[a].state)
    ensures w.ops[x].current < |w.hist[x]|
    ensures a in w.hist[x][w.ops[x].current].regs && StepRef(x, w.ops[x].current) in w.ops[a].dependents
  {
    assert OpOk(w, {}, -1, x);
    var h := w.hist[x][w.ops[x].current];
    assert h.open != {};
    a :| a in h.open;
    assert HistoryOk(w, x, w.ops[x].current);
    assert a in h.regs;
    assert RegOk(w, {}, x, a);
  }

  /** No deadlock: the first operation in the list has started. */
  lemma FirstHasStarted(w: World)
    requires Quiescent(w) && w.list != []
    ensures w.list[0] < |w.ops| && w.ops[w.list[0]].state == Started
  {
    var x := w.list[0];
    assert x in w.list;
    if w.ops[x].state == NotStarted {
      var a := WaitsForEarlier(w, x);
    }
  }

  /** At rest the condition of the step an operation waits with is not met yet... */
  lemma WaitsUnmet(w: World, x: nat)
    requires Quiescent(w) && x in w.list && w.ops[x].state == NotStarted
    ensures var k := w.ops[x].current;
            && k < |w.hist[x]| && k < |w.ops[x].chain| && w.hist[x][k].regs != {}
            && !CondMet(w.ops, w.ops[x].chain[k], w.hist[x][k].regs)
  {
    hide Need;
    assert OpOk(w, {}, -1, x);
    var k := w.ops[x].current;
    var h, step := w.hist[x][k], w.ops[x].chain[k];
    assert HistoryOk(w, x, k);
    NeedOf(step.scope, |h.regs|);
    if step.scope == All {
      var a := OneOutside(h.got, h.regs);
      assert RegOk(w, {}, x, a);
    } else {
      assert |h.got| == 0;
      forall a | a in h.regs
        ensures !MetBy(w.ops, step.trigger, a)
      {
        assert RegOk(w, {}, x, a);
      }
    }
  }

  /** ... nor is it lost, unless all are to start: then an operation that has failed without starting may be made up for
      in the counters by one that has started and not finished. */
  lemma WaitsWithHope(w: World, x: nat)
    requires Quiescent(w) && x in w.list && w.ops[x].state == NotStarted
    ensures var k := w.ops[x].current;
            && k < |w.hist[x]| && k < |w.ops[x].chain|
            && (Doomed(w.ops, w.ops[x].chain[k], w.hist[x][k].regs) ==>
                  w.ops[x].chain[k].scope == All && w.ops[x].chain[k].trigger == OnStarted)
  {
    hide Need;
    assert OpOk(w, {}, -1, x);
    var k := w.ops[x].current;
    var h, step := w.hist[x][k], w.ops[x].chain[k];
    assert HistoryOk(w, x, k);
    NeedOf(step.scope, |h.regs|);
    if step.scope != All {
      var a :| a in h.open;
      assert RegOk(w, {}, x, a);
    } else if step.trigger != OnStarted && Doomed(w.ops, step, h.regs) {
      var lost :| lost in h.regs && LostBy(w.ops, step.trigger, lost);
      assert RegOk(w, {}, x, lost);
      forall a | a in h.open
        ensures a !in h.got
      {
        assert RegOk(w, {}, x, a);
      }
      NotBoth(h.regs, h.open, h.got, lost);
    }
  }

  lemma NeedOf(scope: Scope, count: nat)
    ensures Need(scope, count) == if scope == All then count else 1
  {
  }

  lemma OneOutside(a: set<nat>, b: set<nat>) returns (x: nat)
    requires a <= b && |a| < |b|
    ensures x in b && x !in a
  {
    if b <= a {
      Smaller(b, a);
    }
    x :| x in b && x !in a;
  }

  lemma NotBoth(all: set<nat>, a: set<nat>, b: set<nat>, x: nat)
    requires a <= all && b <= all && a !! b && x in all && x !in a && x !in b
    ensures |a| + |b| < |all|
  {
    Smaller(a + b, all - {x});
  }

  // ----- an operation changes state -----

  function Without(list: seq<nat>, a: nat): seq<nat> {
    if list == [] then [] else if list[0] == a then list[1..] else [list[0]] + Without(list[1..], a)
  }

  /** The world right after operation `a` got into state `s`, left the list if that finishes it, and was
      signalled. */
  function StateChanged(w: World, a: nat, s: State): World
    requires a < |w.ops|
  {
    World(w.ops[a := w.ops[a].(state := s, counters := None)],
          if Finished(s) then Without(w.list, a) else w.list,
          w.hist,
          w.log + [if Finished(s) then End(a, s) else Start(a)])
  }

  function NotesFrom(w: World, a: nat): set<Note>
    requires a < |w.ops|
  {
    set r | r in w.ops[a].dependents :: Note(a, r, EventOf(w.ops[a].state))
  }

  /** The changes of state the sequencer makes. */
  ghost predicate MayChange(w: World, busy: int, a: nat, s: State)
    requires |w.hist| == |w.ops|
  {
    && a < |w.ops|
    && if w.ops[a].state == NotStarted then
         && busy == a
         && (s == Started || s == FailedNullStartSignalObject || s == FailedStartSignalInvocation ==>
               w.ops[a].current == |w.ops[a].chain|)
         && (s == FailedDependencies ==>
               w.ops[a].current < |w.hist[a]| && w.ops[a].current < |w.ops[a].chain|
               && Doomed(w.ops, w.ops[a].chain[w.ops[a].current], w.hist[a][w.ops[a].current].regs))
         && (s == Started || s == FailedNullStartSignalObject || s == FailedStartSignalInvocation
             || s == FailedDependencies)
       else
         && busy == -1 && w.ops[a].state == Started
         && (s == Succeeded || s == FailedSignal || s == FailedNoSuccessSignalers || s == FailedAborted)
  }

  lemma {:induction false} WithoutMembers(list: seq<nat>, a: nat)
    requires Ascending(list)
    ensures forall b :: b in Without(list, a) <==> b in list && b != a
  {
    if list != [] {
      assert forall b :: b in list <==> b == list[0] || b in list[1..];
      assert Ascending(list[1..]) && forall i :: 0 < i < |list| ==> list[0] < list[i];
      if list[0] != a {
        WithoutMembers(list[1..], a);
      }
    }
  }

  lemma AscendingFront(head: nat, tail: seq<nat>)
    requires Ascending(tail) && forall b <- tail :: head < b
    ensures Ascending([head] + tail)
  {
    var s := [head] + tail;
    forall i, j | 0 <= i < j < |s| ensures s[i] < s[j] {
      assert s[j] == tail[j - 1] && tail[j - 1] in tail;
      if i > 0 {
        assert s[i] == tail[i - 1];
      }
    }
  }

  lemma {:induction false} WithoutAscending(list: seq<nat>, a: nat)
    requires Ascending(list)
    ensures Ascending(Without(list, a))
  {
    hide Without;
    if list != [] {
      var tail := list[1..];
      assert Ascending(tail);
      WithoutUnfolds(list, a);
      if list[0] != a {
        WithoutAscending(tail, a);
        WithoutMembers(tail, a);
        assert forall b <- tail :: list[0] < b;
        AscendingFront(list[0], Without(tail, a));
      }
    } else {
      WithoutUnfolds(list, a);
    }
  }

  lemma WithoutUnfolds(list: seq<nat>, a: nat)
    ensures list == [] ==> Without(list, a) == []
    ensures list != [] ==>
      Without(list, a) == if list[0] == a then list[1..] else [list[0]] + Without(list[1..], a)
  {
  }

  lemma ChangedList(w: World, a: nat, s: State)
    requires ListOk(w) && a < |w.ops| && !Finished(w.ops[a].state)
    ensures ListOk(StateChanged(w, a, s))
  {
    WithoutMembers(w.list, a);
    WithoutAscending(w.list, a);
  }

  lemma EntryIsNew(w: World, busy: int, a: nat, s: State)
    requires |w.hist| == |w.ops| && LogOk(w) && MayChange(w, busy, a, s)
    ensures (if Finished(s) then End(a, s) else Start(a)) !in w.log
    ensures !Finished(s) ==> forall i :: 0 <= i < |w.log| && w.log[i].End? ==> w.log[i].op != a
  {
    if !Finished(s) {
      forall i | 0 <= i < |w.log| && w.log[i].End?
        ensures w.log[i].op != a
      {
        assert End(w.log[i].op, w.log[i].outcome) in w.log;
      }
    }
  }

  lemma EntriesGrow(log: seq<Entry>, e: Entry)
    requires forall i, j :: 0 <= i < j < |log| ==> log[i] != log[j]
    requires forall i, j :: 0 <= i < j < |log| && log[i].End? ==> log[j] != Start(log[i].op)
    requires e !in log && (e.Start? ==> forall i :: 0 <= i < |log| && log[i].End? ==> log[i].op != e.op)
    ensures var longer := log + [e];
            && (forall i, j :: 0 <= i < j < |longer| ==> longer[i] != longer[j])
            && (forall i, j :: 0 <= i < j < |longer| && longer[i].End? ==> longer[j] != Start(longer[i].op))
  {
    assert forall i :: 0 <= i < |log| ==> log[i] in log;
  }

  lemma LoggedStarts(w: World, busy: int, a: nat, s: State, b: nat)
    requires |w.hist| == |w.ops| && LogOk(w) && MayChange(w, busy, a, s)
    ensures var v := StateChanged(w, a, s); Start(b) in v.log <==> b < |v.ops| && Began(v.ops[b].state)
  {
    assert Start(b) in w.log <==> b < |w.ops| && Began(w.ops[b].state);
  }

  lemma LoggedEnds(w: World, busy: int, a: nat, s: State, b: nat, t: State)
    requires |w.hist| == |w.ops| && LogOk(w) && MayChange(w, busy, a, s)
    ensures var v := StateChanged(w, a, s);
            End(b, t) in v.log <==> b < |v.ops| && Finished(t) && v.ops[b].state == t
  {
    assert End(b, t) in w.log <==> b < |w.ops| && Finished(t) && w.ops[b].state == t;
  }

  lemma ChangedLog(w: World, busy: int, a: nat, s: State)
    requires |w.hist| == |w.ops| && LogOk(w) && MayChange(w, busy, a, s)
    ensures LogOk(StateChanged(w, a, s))
  {
    var v := StateChanged(w, a, s);
    EntryIsNew(w, busy, a, s);
    EntriesGrow(w.log, if Finished(s) then End(a, s) else Start(a));
    forall b: nat
      ensures Start(b) in v.log <==> b < |v.ops| && Began(v.ops[b].state)
    {
      LoggedStarts(w, busy, a, s, b);
    }
    forall b: nat, t
      ensures End(b, t) in v.log <==> b < |v.ops| && Finished(t) && v.ops[b].state == t
    {
      LoggedEnds(w, busy, a, s, b, t);
    }
  }

  /** A condition once met, or lost, stays so. */
  lemma Stable(w: World, busy: int, a: nat, s: State, step: Step, regs: set<nat>)
    requires |w.hist| == |w.ops| && MayChange(w, busy, a, s)
    ensures CondMet(w.ops, step, regs) ==> CondMet(StateChanged(w, a, s).ops, step, regs)
    ensures Doomed(w.ops, step, regs) ==> Doomed(StateChanged(w, a, s).ops, step, regs)
  {
    var ops := StateChanged(w, a, s).ops;
    assert forall b :: MetBy(w.ops, step.trigger, b) ==> MetBy(ops, step.trigger, b);
    assert forall b :: LostBy(w.ops, step.trigger, b) ==> LostBy(ops, step.trigger, b);
  }

  lemma ChangedHistory(w: World, busy: int, a: nat, s: State, x: nat)
    requires |w.hist| == |w.ops| && MayChange(w, busy, a, s) && x < |w.ops| && PassedOk(w, x)
    ensures PassedOk(StateChanged(w, a, s), x)
  {
    var v := StateChanged(w, a, s);
    forall k | 0 <= k < |v.hist[x]| ensures HistoryOk(v, x, k) {
      assert HistoryOk(w, x, k);
      var h := w.hist[x][k];
      assert v.log[..h.since] == w.log[..h.since];
      SameDependedOn(w.ops, v.ops, h.before, w.ops[x].chain[k]);
    }
    forall k | 0 <= k < v.ops[x].current
      ensures v.hist[x][k].regs == {} || CondMet(v.ops, v.ops[x].chain[k], v.hist[x][k].regs)
    {
      Stable(w, busy, a, s, w.ops[x].chain[k], w.hist[x][k].regs);
    }
  }

  /** What a step depends on is decided by the qualities alone. */
  lemma {:induction false} SameDependedOn(ops: seq<Operation>, then_: seq<Operation>, before: seq<nat>, step: Step)
    requires |ops| <= |then_|
    requires forall b :: 0 <= b < |ops| ==> ops[b].qualities == then_[b].qualities
    requires forall b <- before :: b < |ops|
    ensures DependedOn(ops, before, step) == DependedOn(then_, before, step)
  {
    if before != [] {
      var last, rest := before[|before| - 1], before[..|before| - 1];
      assert last in before && forall b <- rest :: b in before;
      SameDependedOn(ops, then_, rest, step);
    }
  }

  lemma MetAsLogged(w: World, t: Trigger, a: nat)
    requires LogOk(w)
    ensures MetBy(w.ops, t, a) <==> MetIn(w.log, t, a)
    ensures LostBy(w.ops, t, a) <==> LostIn(w.log, t, a)
  {
    if a < |w.ops| {
      assert Start(a) in w.log <==> Began(w.ops[a].state);
      assert forall s :: End(a, s) in w.log <==> Finished(s) && w.ops[a].state == s;
      assert End(a, w.ops[a].state) in w.log <==> Finished(w.ops[a].state);
    } else {
      assert Start(a) !in w.log;
      assert forall s :: End(a, s) !in w.log;
    }
  }

  lemma BecomesReady(w: World, x: nat)
    requires |w.hist| == |w.ops| && LogOk(w) && x < |w.ops| && PassedOk(w, x) && w.ops[x].current == |w.ops[x].chain|
    ensures ReadyBy(w.log, w.ops[x].chain, w.hist[x])
  {
    hide HistoryOk, LogOk, MetIn, MetBy;
    var chain, hist := w.ops[x].chain, w.hist[x];
    forall k | 0 <= k < |chain| && hist[k].regs != {}
      ensures if chain[k].scope == All then forall a <- hist[k].regs :: MetIn(w.log, chain[k].trigger, a)
              else exists a <- hist[k].regs :: MetIn(w.log, chain[k].trigger, a)
    {
      assert CondMet(w.ops, chain[k], hist[k].regs);
      forall a <- hist[k].regs ensures MetBy(w.ops, chain[k].trigger, a) <==> MetIn(w.log, chain[k].trigger, a) {
        MetAsLogged(w, chain[k].trigger, a);
      }
    }
  }

  lemma BecomesHopeless(w: World, x: nat)
    requires |w.hist| == |w.ops| && LogOk(w) && x < |w.ops| && PassedOk(w, x) && w.ops[x].current < |w.hist[x]|
    requires w.ops[x].current < |w.ops[x].chain|
    requires Doomed(w.ops, w.ops[x].chain[w.ops[x].current], w.hist[x][w.ops[x].current].regs)
    ensures HopelessBy(w.log, w.ops[x].chain, w.hist[x])
  {
    hide HistoryOk, LogOk, LostIn, LostBy;
    var k := w.ops[x].current;
    var t := w.ops[x].chain[k].trigger;
    forall a <- w.hist[x][k].regs ensures LostBy(w.ops, t, a) <==> LostIn(w.log, t, a) {
      MetAsLogged(w, t, a);
    }
  }

  lemma LogGrows(w: World, v: World, x: nat, e: Entry)
    requires |w.hist| == |w.ops| == |v.hist| == |v.ops| && x < |w.ops| && LoggedOk(w, x)
    requires v.hist[x] == w.hist[x] && v.ops[x].chain == w.ops[x].chain && v.log == w.log + [e]
    requires e == Start(x) ==> ReadyBy(w.log, w.ops[x].chain, w.hist[x])
    requires e == End(x, FailedDependencies) ==> HopelessBy(w.log, w.ops[x].chain, w.hist[x])
    ensures LoggedOk(v, x)
  {
    hide ReadyBy, HopelessBy;
    assert forall i :: 0 <= i < |w.log| ==> v.log[i] == w.log[i] && v.log[..i] == w.log[..i];
    assert v.log[..|w.log|] == w.log;
  }

  lemma ChangedLogged(w: World, busy: int, a: nat, s: State, x: nat)
    requires |w.hist| == |w.ops| && LogOk(w) && MayChange(w, busy, a, s) && x < |w.ops|
    requires PassedOk(w, x) && LoggedOk(w, x)
    ensures LoggedOk(StateChanged(w, a, s), x)
  {
    hide HistoryOk, LogOk, ReadyBy, HopelessBy, LoggedOk, CondMet, Doomed;
    var e := if Finished(s) then End(a, s) else Start(a);
    if e == Start(x) {
      BecomesReady(w, x);
    } else if e == End(x, FailedDependencies) {
      BecomesHopeless(w, x);
    }
    LogGrows(w, StateChanged(w, a, s), x, e);
  }

  lemma ChangedNotes(w: World, pending: set<Note>, busy: int, a: nat, s: State, n: Note)
    requires Inv(w, pending, busy) && MayChange(w, busy, a, s)
    requires forall m <- pending :: m.from < a
    requires n in pending || n in NotesFrom(StateChanged(w, a, s), a)
    ensures NoteOk(StateChanged(w, a, s), n)
  {
    var v := StateChanged(w, a, s);
    if n in pending {
      assert NoteOk(w, n);
    } else {
      assert OpOk(w, pending, busy, a);
      assert n.ref in w.ops[a].dependents;
      var x := n.ref.op;
      assert OpOk(w, pending, busy, x);
      if Alive(v.ops, n.ref) {
        assert WaitingOk(w, pending, x);
        assert RegOk(w, pending, x, a);
      }
    }
  }

  lemma ChangedReg(w: World, pending: set<Note>, busy: int, a: nat, s: State, x: nat, b: nat)
    requires Inv(w, pending, busy) && MayChange(w, busy, a, s) && x < |w.ops| && x != a
    requires forall m <- pending :: m.from < a
    requires WaitingOk(w, pending, x) && b in w.hist[x][w.ops[x].current].regs
    ensures RegOk(StateChanged(w, a, s), pending + NotesFrom(StateChanged(w, a, s), a), x, b)
  {
    var v := StateChanged(w, a, s);
    var k := w.ops[x].current;
    assert RegOk(w, pending, x, b);
    if b == a {
      assert OpOk(w, pending, busy, x);
      assert HistoryOk(w, x, k);
      assert StepRef(x, k) in v.ops[a].dependents;
      assert Note(a, StepRef(x, k), EventOf(s)) in NotesFrom(v, a);
    }
  }

  lemma ChangedOp(w: World, pending: set<Note>, busy: int, a: nat, s: State, x: nat)
    requires Inv(w, pending, busy) && MayChange(w, busy, a, s) && x < |w.ops|
    requires forall m <- pending :: m.from < a
    ensures OpOk(StateChanged(w, a, s), pending + NotesFrom(StateChanged(w, a, s), a), -1, x)
  {
    hide RegOk, CondMet, Doomed, HistoryOk, LoggedOk, NoteOk, ListOk, LogOk;
    var v := StateChanged(w, a, s);
    var more := pending + NotesFrom(v, a);
    assert OpOk(w, pending, busy, x);
    ChangedHistory(w, busy, a, s, x);
    ChangedLogged(w, busy, a, s, x);
    if w.ops[x].current < |w.hist[x]| {
      Stable(w, busy, a, s, w.ops[x].chain[w.ops[x].current], w.hist[x][w.ops[x].current].regs);
    }
    if v.ops[x].state == NotStarted {
      assert WaitingOk(w, pending, x);
      forall b <- w.hist[x][w.ops[x].current].regs ensures RegOk(v, more, x, b) {
        ChangedReg(w, pending, busy, a, s, x, b);
      }
    }
  }

  /** A change of state keeps everything in order, with the notes it sends on their way. */
  lemma ChangedInv(w: World, pending: set<Note>, busy: int, a: nat, s: State)
    requires Inv(w, pending, busy) && MayChange(w, busy, a, s)
    requires forall m <- pending :: m.from < a
    ensures Inv(StateChanged(w, a, s), pending + NotesFrom(StateChanged(w, a, s), a), -1)
  {
    hide NoteOk, OpOk, ListOk, LogOk;
    var v := StateChanged(w, a, s);
    var more := pending + NotesFrom(v, a);
    ChangedList(w, a, s);
    ChangedLog(w, busy, a, s);
    forall n <- more ensures NoteOk(v, n) {
      ChangedNotes(w, pending, busy, a, s, n);
    }
    forall x | 0 <= x < |v.ops| ensures OpOk(v, more, -1, x) {
      ChangedOp(w, pending, busy, a, s, x);
    }
  }

  // ----- a notification arrives -----

  /** The step is gone: nobody is told. */
  lemma ArrivesTooLate(w: World, pending: set<Note>, busy: int, n: Note)
    requires Inv(w, pending + {n}, busy) && !Alive(w.ops, n.ref)
    ensures Inv(w, pending, busy)
  {
    forall x | 0 <= x < |w.ops| ensures OpOk(w, pending, busy, x) {
      assert OpOk(w, pending + {n}, busy, x);
      if w.ops[x].state == NotStarted && x != busy {
        assert WaitingOk(w, pending + {n}, x);
        forall a <- w.hist[x][w.ops[x].current].regs ensures RegOk(w, pending, x, a) {
          assert RegOk(w, pending + {n}, x, a);
        }
      }
    }
    forall m <- pending ensures NoteOk(w, m) {
      assert m in pending + {n};
    }
  }

  ghost predicate Arrives(w: World, pending: set<Note>, n: Note) {
    && Inv(w, pending + {n}, -1) && n !in pending
    && Alive(w.ops, n.ref) && w.ops[n.ref.op].state == NotStarted
  }

  /** The history of the step once it has been told. */
  function Told(h: History, t: Trigger, n: Note): History {
    h.(open := if n.event != EvStarted then h.open - {n.from} else h.open,
       got := if Matches(t, n.event) then h.got + {n.from} else h.got)
  }

  /** The counters of the step once it has been told. */
  function Counted(c: Counters, t: Trigger, e: Event): Counters {
    Counters(if Matches(t, e) then c.required - 1 else c.required,
             if e != EvStarted then c.remaining - 1 else c.remaining)
  }

  /** The world once the step has been told: still waiting, or on its way to the next step, or giving up. */
  function Delivered(w: World, n: Note, counters: Option<Counters>, next: nat): World
    requires |w.hist| == |w.ops| && n.ref.op < |w.ops|
    requires n.ref.index < |w.hist[n.ref.op]| && n.ref.index < |w.ops[n.ref.op].chain|
  {
    var x, k := n.ref.op, n.ref.index;
    w.(ops := w.ops[x := w.ops[x].(counters := counters, current := next)],
       hist := w.hist[x := w.hist[x][k := Told(w.hist[x][k], w.ops[x].chain[k].trigger, n)]])
  }

  /** What is known of a step and the operation that tells it something. */
  lemma ArrivalFacts(w: World, pending: set<Note>, n: Note)
    requires Arrives(w, pending, n)
    ensures var x, k := n.ref.op, n.ref.index;
            && |w.hist| == |w.ops|
            && x < |w.ops| && k == w.ops[x].current < |w.ops[x].chain| && |w.hist[x]| == k + 1
            && n.from < x && n.from < |w.ops|
            && WaitingOk(w, pending + {n}, x) && HistoryOk(w, x, k) && RegOk(w, pending + {n}, x, n.from)
            && var h := w.hist[x][k];
            && n.from in h.regs
            && (n.event != EvStarted ==> n.from in h.open)
            && (Matches(w.ops[x].chain[k].trigger, n.event) ==>
                n.from !in h.got && Met(w.ops[x].chain[k].trigger, w.ops[n.from].state))
            && n.event == EventOf(w.ops[n.from].state) && w.ops[n.from].state != NotStarted
  {
    var x := n.ref.op;
    assert n in pending + {n};
    assert NoteOk(w, n);
    assert OpOk(w, pending + {n}, -1, x) && OpOk(w, pending + {n}, -1, n.from);
    assert WaitingOk(w, pending + {n}, x);
    assert HistoryOk(w, x, n.ref.index);
  }

  lemma ToldCounts(h: History, scope: Scope, t: Trigger, n: Note)
    requires n.event != EvStarted ==> n.from in h.open
    requires Matches(t, n.event) ==> n.from !in h.got
    ensures Counted(Counters(Need(scope, |h.regs|) - |h.got|, |h.open|), t, n.event)
            == Counters(Need(scope, |h.regs|) - |Told(h, t, n).got|, |Told(h, t, n).open|)
  {
  }

  lemma DeliveredReg(w: World, pending: set<Note>, n: Note, c: Option<Counters>, next: nat, a: nat)
    requires Arrives(w, pending, n)
    requires n.ref.index < |w.hist[n.ref.op]| && n.ref.index < |w.ops[n.ref.op].chain|
             && w.ops[n.ref.op].current == n.ref.index
    requires a in w.hist[n.ref.op][n.ref.index].regs
    requires next == n.ref.index
    ensures RegOk(Delivered(w, n, c, next), pending, n.ref.op, a)
  {
    ArrivalFacts(w, pending, n);
    assert RegOk(w, pending + {n}, n.ref.op, a);
  }

  lemma DeliveredNotes(w: World, pending: set<Note>, n: Note, c: Option<Counters>, next: nat, m: Note)
    requires Arrives(w, pending, n) && m in pending
    requires n.ref.index < |w.hist[n.ref.op]| && n.ref.index < |w.ops[n.ref.op].chain|
             && w.ops[n.ref.op].current == n.ref.index
    requires c.Some? ==> next == n.ref.index
    ensures NoteOk(Delivered(w, n, c, next), m)
  {
    ArrivalFacts(w, pending, n);
    assert m in pending + {n};
    assert NoteOk(w, m);
  }

  lemma DeliveredHistory(w: World, n: Note, c: Option<Counters>, next: nat, x: nat, k: nat)
    requires |w.hist| == |w.ops| && n.ref.op < |w.ops|
    requires n.ref.index < |w.hist[n.ref.op]| && n.ref.index < |w.ops[n.ref.op].chain|
    requires x < |w.ops| && k < |w.hist[x]| && k < |w.ops[x].chain| && HistoryOk(w, x, k)
    requires n.from in w.hist[n.ref.op][n.ref.index].regs
    ensures HistoryOk(Delivered(w, n, c, next), x, k)
  {
    SameDependedOn(w.ops, Delivered(w, n, c, next).ops, w.hist[x][k].before, w.ops[x].chain[k]);
  }

  lemma DeliveredLogged(w: World, n: Note, c: Option<Counters>, next: nat, x: nat)
    requires |w.hist| == |w.ops| && n.ref.op < |w.ops|
    requires n.ref.index < |w.hist[n.ref.op]| && n.ref.index < |w.ops[n.ref.op].chain|
    requires x < |w.ops| && LoggedOk(w, x)
    ensures LoggedOk(Delivered(w, n, c, next), x)
  {
    hide MetIn, LostIn;
    var v := Delivered(w, n, c, next);
    assert |v.hist[x]| == |w.hist[x]| && forall k :: 0 <= k < |w.hist[x]| ==> v.hist[x][k].regs == w.hist[x][k].regs;
  }

  lemma DeliveredPassed(w: World, n: Note, c: Option<Counters>, next: nat, x: nat)
    requires |w.hist| == |w.ops| && n.ref.op < |w.ops|
    requires n.ref.index < |w.hist[n.ref.op]| && n.ref.index < |w.ops[n.ref.op].chain|
             && w.ops[n.ref.op].current == n.ref.index
    requires x < |w.ops| && PassedOk(w, x)
    requires n.from in w.hist[n.ref.op][n.ref.index].regs
    requires |w.hist[n.ref.op]| == n.ref.index + 1
    requires next == n.ref.index
             || (next == n.ref.index + 1
                 && CondMet(w.ops, w.ops[n.ref.op].chain[n.ref.index], w.hist[n.ref.op][n.ref.index].regs))
    ensures PassedOk(Delivered(w, n, c, next), x)
  {
    hide HistoryOk, CondMet, Doomed;
    var v := Delivered(w, n, c, next);
    forall k | 0 <= k < |v.hist[x]| ensures HistoryOk(v, x, k) {
      assert HistoryOk(w, x, k);
      DeliveredHistory(w, n, c, next, x, k);
    }
    SameStates(w.ops, v.ops);
  }

  lemma DeliveredDependents(w: World, n: Note, c: Option<Counters>, next: nat, x: nat)
    requires |w.hist| == |w.ops| && n.ref.op < |w.ops|
    requires n.ref.index < |w.hist[n.ref.op]| && n.ref.index < |w.ops[n.ref.op].chain|
    requires x < |w.ops| && DependentsOk(w, x)
    ensures DependentsOk(Delivered(w, n, c, next), x)
  {
  }

  /** Everything but the phase of the operation that was told something. */
  lemma DeliveredRest(w: World, pending: set<Note>, n: Note, c: Option<Counters>, next: nat, x: nat)
    requires Arrives(w, pending, n) && x < |w.ops|
    requires n.ref.index < |w.hist[n.ref.op]| && n.ref.index < |w.ops[n.ref.op].chain|
             && w.ops[n.ref.op].current == n.ref.index
    requires next == n.ref.index
             || (next == n.ref.index + 1
                 && CondMet(w.ops, w.ops[n.ref.op].chain[n.ref.index], w.hist[n.ref.op][n.ref.index].regs))
    ensures var v := Delivered(w, n, c, next); DependentsOk(v, x) && PassedOk(v, x) && OutcomeOk(v, x) && LoggedOk(v, x)
  {
    hide CondMet, Doomed, RegOk, NoteOk, HistoryOk, WaitingOk, PassedOk, OutcomeOk, LogOk, ListOk, LoggedOk,
        DependentsOk, Alive;
    ArrivalFacts(w, pending, n);
    assert OpOk(w, pending + {n}, -1, x);
    DeliveredPassed(w, n, c, next, x);
    DeliveredLogged(w, n, c, next, x);
    DeliveredDependents(w, n, c, next, x);
    SameOutcome(w, Delivered(w, n, c, next), x);
  }

  lemma SameStates(ops: seq<Operation>, then_: seq<Operation>)
    requires |ops| == |then_| && forall b :: 0 <= b < |ops| ==> ops[b].state == then_[b].state
    ensures forall step, regs :: CondMet(ops, step, regs) == CondMet(then_, step, regs)
    ensures forall step, regs :: Doomed(ops, step, regs) == Doomed(then_, step, regs)
  {
    assert forall t, b: nat :: MetBy(ops, t, b) == MetBy(then_, t, b);
    assert forall t, b: nat :: LostBy(ops, t, b) == LostBy(then_, t, b);
  }

  lemma DeliveredInv(w: World, pending: set<Note>, n: Note, c: Option<Counters>, next: nat)
    requires Arrives(w, pending, n)
    requires n.ref.index < |w.hist[n.ref.op]| && n.ref.index < |w.ops[n.ref.op].chain|
             && w.ops[n.ref.op].current == n.ref.index
    requires next == n.ref.index
             || (next == n.ref.index + 1
                 && CondMet(w.ops, w.ops[n.ref.op].chain[n.ref.index], w.hist[n.ref.op][n.ref.index].regs))
    requires c.Some? ==> next == n.ref.index && WaitingOk(Delivered(w, n, c, next), pending, n.ref.op)
    ensures Inv(Delivered(w, n, c, next), pending, if c.Some? then -1 else n.ref.op)
  {
    var v := Delivered(w, n, c, next);
    var busy := if c.Some? then -1 else n.ref.op;
    forall m <- pending ensures NoteOk(v, m) {
      DeliveredNotes(w, pending, n, c, next, m);
    }
    forall x | 0 <= x < |v.ops| ensures OpOk(v, pending, busy, x) {
      DeliveredRest(w, pending, n, c, next, x);
      if x != n.ref.op {
        DeliveredOther(w, pending, n, c, next, x);
      }
    }
  }

  lemma DeliveredOther(w: World, pending: set<Note>, n: Note, c: Option<Counters>, next: nat, x: nat)
    requires Arrives(w, pending, n) && x < |w.ops| && x != n.ref.op
    requires n.ref.index < |w.hist[n.ref.op]| && n.ref.index < |w.ops[n.ref.op].chain|
    ensures PhaseOk(Delivered(w, n, c, next), pending, if c.Some? then -1 else n.ref.op, x)
  {
    var v := Delivered(w, n, c, next);
    assert OpOk(w, pending + {n}, -1, x);
    if w.ops[x].state == NotStarted {
      assert WaitingOk(w, pending + {n}, x);
      forall a <- v.hist[x][v.ops[x].current].regs ensures RegOk(v, pending, x, a) {
        assert RegOk(w, pending + {n}, x, a);
      }
    }
  }

  /** The step goes on waiting. */
  lemma StillWaits(w: World, pending: set<Note>, n: Note)
    requires Arrives(w, pending, n)
    ensures n.ref.index < |w.hist[n.ref.op]| && n.ref.index < |w.ops[n.ref.op].chain|
    ensures var c := Counted(w.ops[n.ref.op].counters.value, w.ops[n.ref.op].chain[n.ref.index].trigger, n.event);
            0 < c.required <= c.remaining ==> Inv(Delivered(w, n, Some(c), n.ref.index), pending, -1)
  {
    hide Inv;
    ArrivalFacts(w, pending, n);
    var x, k := n.ref.op, n.ref.index;
    var t := w.ops[x].chain[k].trigger;
    var c := Counted(w.ops[x].counters.value, t, n.event);
    ToldCounts(w.hist[x][k], w.ops[x].chain[k].scope, t, n);
    if 0 < c.required <= c.remaining {
      var v := Delivered(w, n, Some(c), k);
      forall a <- v.hist[x][k].regs ensures RegOk(v, pending, x, a) {
        DeliveredReg(w, pending, n, Some(c), k, a);
      }
      DeliveredInv(w, pending, n, Some(c), k);
    }
  }

  lemma AllOf(part: set<nat>, whole: set<nat>)
    requires part <= whole && |part| == |whole|
    ensures part == whole
  {
    assert |whole - part| == 0;
  }

  /** The last requirement is met: the condition of the step holds, and the operation may go to the next one. */
  lemma Succeeds(w: World, pending: set<Note>, n: Note)
    requires Arrives(w, pending, n)
    ensures n.ref.index < |w.hist[n.ref.op]| && n.ref.index < |w.ops[n.ref.op].chain|
    ensures var step := w.ops[n.ref.op].chain[n.ref.index];
            var c := Counted(w.ops[n.ref.op].counters.value, step.trigger, n.event);
            Matches(step.trigger, n.event) && c.required == 0 ==>
              && 0 <= c.remaining
              && CondMet(w.ops, step, w.hist[n.ref.op][n.ref.index].regs)
              && Inv(Delivered(w, n, None, n.ref.index + 1), pending, n.ref.op)
  {
    hide Inv, PhaseOk, HistoryOk, LogOk, ListOk, NoteOk;
    ArrivalFacts(w, pending, n);
    var x, k := n.ref.op, n.ref.index;
    var step := w.ops[x].chain[k];
    var c := Counted(w.ops[x].counters.value, step.trigger, n.event);
    var h := w.hist[x][k];
    ToldCounts(h, step.scope, step.trigger, n);
    if Matches(step.trigger, n.event) && c.required == 0 {
      var got := Told(h, step.trigger, n).got;
      forall a <- got ensures MetBy(w.ops, step.trigger, a) {
        assert RegOk(w, pending + {n}, x, a);
      }
      if step.scope == All {
        AllOf(got, h.regs);
      } else {
        assert n.from in got;
      }
      DeliveredInv(w, pending, n, None, k + 1);
    }
  }

  lemma OneLeft(regs: set<nat>, open: set<nat>, got: set<nat>) returns (a: nat)
    requires open <= regs && got <= regs && |open| + |got| < |regs|
    ensures a in regs && a !in open && a !in got
  {
    assert |open + got| <= |open| + |got|;
    assert open + got != regs;
    assert open + got <= regs;
    a :| a in regs && a !in open + got;
  }

  /** Too few are left: the condition is lost for good. */
  lemma Fails(w: World, pending: set<Note>, n: Note)
    requires Arrives(w, pending, n)
    ensures n.ref.index < |w.hist[n.ref.op]| && n.ref.index < |w.ops[n.ref.op].chain|
    ensures var step := w.ops[n.ref.op].chain[n.ref.index];
            var c := Counted(w.ops[n.ref.op].counters.value, step.trigger, n.event);
            n.event != EvStarted && c.required > 0 && c.remaining < c.required ==>
              && Doomed(w.ops, step, w.hist[n.ref.op][n.ref.index].regs)
              && Inv(Delivered(w, n, None, n.ref.index), pending, n.ref.op)
  {
    hide Inv;
    ArrivalFacts(w, pending, n);
    var x, k := n.ref.op, n.ref.index;
    var step := w.ops[x].chain[k];
    var c := Counted(w.ops[x].counters.value, step.trigger, n.event);
    var h := w.hist[x][k];
    var told := Told(h, step.trigger, n);
    ToldCounts(h, step.scope, step.trigger, n);
    if n.event != EvStarted && c.required > 0 && c.remaining < c.required {
      if step.scope == All {
        var a := OneLeft(h.regs, told.open, told.got);
        LostFor(w, pending, n, a);
        assert LostBy(w.ops, step.trigger, a);
      } else {
        assert told.open == {} && told.got == {};
        forall a <- h.regs ensures LostBy(w.ops, step.trigger, a) {
          LostFor(w, pending, n, a);
        }
      }
      DeliveredInv(w, pending, n, None, k);
    }
  }

  /** An operation whose end has been told, and which has not matched, never will. */
  lemma LostFor(w: World, pending: set<Note>, n: Note, a: nat)
    requires Arrives(w, pending, n)
    requires n.ref.index < |w.hist[n.ref.op]| && n.ref.index < |w.ops[n.ref.op].chain|
    requires a in w.hist[n.ref.op][n.ref.index].regs
    requires var told := Told(w.hist[n.ref.op][n.ref.index], w.ops[n.ref.op].chain[n.ref.index].trigger, n);
             a !in told.open && a !in told.got
    ensures LostBy(w.ops, w.ops[n.ref.op].chain[n.ref.index].trigger, a)
  {
    ArrivalFacts(w, pending, n);
    var x, k := n.ref.op, n.ref.index;
    var t := w.ops[x].chain[k].trigger;
    assert RegOk(w, pending + {n}, x, a);
    var m := Note(a, n.ref, EventOf(w.ops[a].state));
    assert m in pending + {n} ==> NoteOk(w, m);
  }

  // ----- an operation evaluates its current step -----

  function WithDependents(ops: seq<Operation>, regs: set<nat>, r: StepRef): (then_: seq<Operation>)
    ensures |then_| == |ops|
  {
    seq(|ops|, i requires 0 <= i < |ops| =>
      if i in regs then ops[i].(dependents := ops[i].dependents + [r]) else ops[i])
  }

  /** The world once the current step of `x` is registered on operations in `before`. */
  function Registered(w: World, x: nat, before: seq<nat>): World
    requires |w.hist| == |w.ops| && x < |w.ops| && w.ops[x].current < |w.ops[x].chain|
  {
    var k := w.ops[x].current;
    var step := w.ops[x].chain[k];
    var regs := DependedOn(w.ops, before, step);
    var ops := WithDependents(w.ops, regs, StepRef(x, k));
    w.(ops := ops[x := if regs == {} then ops[x].(counters := None, current := k + 1)
                       else ops[x].(counters := Some(Counters(Need(step.scope, |regs|), |regs|)))],
       hist := w.hist[x := w.hist[x] + [History(before, |w.log|, regs, regs, {})]])
  }

  /** What the step is told at once: which of the operations have started already. */
  function StartedNotes(ops: seq<Operation>, regs: set<nat>, r: StepRef): set<Note> {
    set a | a in regs && a < |ops| && ops[a].state == Started :: Note(a, r, EvStarted)
  }

  ghost predicate Evaluates(w: World, pending: set<Note>, x: nat, before: seq<nat>) {
    && Inv(w, pending, x)
    && x < |w.ops| && w.ops[x].state == NotStarted
    && |w.hist[x]| == w.ops[x].current < |w.ops[x].chain|
    && Ascending(before) && (forall b: nat :: b in before <==> b in w.list && b < x)
  }

  lemma {:induction false} DependedOnIn(ops: seq<Operation>, before: seq<nat>, step: Step)
    ensures forall a <- DependedOn(ops, before, step) :: a in before
  {
    if before != [] {
      DependedOnIn(ops, before[..|before| - 1], step);
    }
  }

  lemma RegisteredHistory(w: World, pending: set<Note>, x: nat, before: seq<nat>, y: nat, k: nat)
    requires Evaluates(w, pending, x, before) && y < |w.ops| && (k < |w.hist[y]| || (y == x && k == |w.hist[y]|))
    ensures k < |w.ops[y].chain| && HistoryOk(Registered(w, x, before), y, k)
  {
    var v := Registered(w, x, before);
    assert OpOk(w, pending, x, y);
    DependedOnIn(w.ops, before, w.ops[x].chain[w.ops[x].current]);
    if k < |w.hist[y]| {
      assert HistoryOk(w, y, k);
      SameDependedOn(w.ops, v.ops, w.hist[y][k].before, w.ops[y].chain[k]);
    } else {
      assert w.log[..|w.log|] == w.log;
      forall b: nat ensures b in before <==> b < x && !EndedIn(w.log, b) {
        if b < x {
          EndedAsLogged(w, b);
        }
      }
      SameDependedOn(w.ops, v.ops, before, w.ops[x].chain[k]);
    }
  }

  lemma EndedAsLogged(w: World, b: nat)
    requires LogOk(w) && b < |w.ops|
    ensures EndedIn(w.log, b) <==> Finished(w.ops[b].state)
  {
    assert End(b, w.ops[b].state) in w.log <==> Finished(w.ops[b].state);
  }

  lemma RegisteredDependents(w: World, pending: set<Note>, x: nat, before: seq<nat>, a: nat)
    requires Evaluates(w, pending, x, before) && a < |w.ops|
    ensures DependentsOk(Registered(w, x, before), a)
  {
    assert OpOk(w, pending, x, a) && OpOk(w, pending, x, x);
    DependedOnIn(w.ops, before, w.ops[x].chain[w.ops[x].current]);
  }

  lemma RegisteredPassed(w: World, pending: set<Note>, x: nat, before: seq<nat>, y: nat)
    requires Evaluates(w, pending, x, before) && y < |w.ops|
    ensures PassedOk(Registered(w, x, before), y)
  {
    hide HistoryOk, CondMet, LogOk, ListOk, NoteOk, PhaseOk, OutcomeOk, LoggedOk, DependentsOk;
    var v := Registered(w, x, before);
    assert OpOk(w, pending, x, y);
    forall k | 0 <= k < |v.hist[y]| ensures k < |v.ops[y].chain| && HistoryOk(v, y, k) {
      RegisteredHistory(w, pending, x, before, y, k);
    }
    SameStates(w.ops, v.ops);
  }

  lemma RegisteredLogged(w: World, pending: set<Note>, x: nat, before: seq<nat>, y: nat)
    requires Evaluates(w, pending, x, before) && y < |w.ops|
    ensures LoggedOk(Registered(w, x, before), y)
  {
    hide HistoryOk, ReadyBy, HopelessBy, NoteOk, PhaseOk, PassedOk, OutcomeOk;
    assert OpOk(w, pending, x, y);
    if y == x {
      forall i | 0 <= i < |w.log| ensures w.log[i] != Start(x) && w.log[i] != End(x, FailedDependencies) {
        assert w.log[i] in w.log;
      }
    }
  }

  /** The step that was just registered waits, unless it depends on nothing. */
  lemma RegisteredWaits(w: World, pending: set<Note>, x: nat, before: seq<nat>)
    requires Evaluates(w, pending, x, before)
    requires DependedOn(w.ops, before, w.ops[x].chain[w.ops[x].current]) != {}
    ensures var regs := DependedOn(w.ops, before, w.ops[x].chain[w.ops[x].current]);
            WaitingOk(Registered(w, x, before),
                      pending + StartedNotes(w.ops, regs, StepRef(x, w.ops[x].current)), x)
  {
    var k := w.ops[x].current;
    var step := w.ops[x].chain[k];
    var regs := DependedOn(w.ops, before, step);
    var v := Registered(w, x, before);
    var more := pending + StartedNotes(w.ops, regs, StepRef(x, k));
    DependedOnIn(w.ops, before, step);
    forall a <- regs ensures RegOk(v, more, x, a) {
      assert a in w.list;
      if Met(step.trigger, v.ops[a].state) {
        assert w.ops[a].state == Started;
        assert Note(a, StepRef(x, k), EvStarted) in StartedNotes(w.ops, regs, StepRef(x, k));
      }
    }
  }

  lemma RegisteredOther(w: World, pending: set<Note>, more: set<Note>, x: nat, before: seq<nat>, y: nat)
    requires Evaluates(w, pending, x, before) && y < |w.ops| && y != x && w.ops[y].state == NotStarted
             && pending <= more
    ensures WaitingOk(Registered(w, x, before), more, y)
  {
    hide NoteOk, HistoryOk, CondMet, Doomed, LogOk, ListOk, LoggedOk, Need;
    var v := Registered(w, x, before);
    assert OpOk(w, pending, x, y);
    assert WaitingOk(w, pending, y);
    forall a <- w.hist[y][w.ops[y].current].regs ensures RegOk(v, more, y, a) {
      assert RegOk(w, pending, y, a);
    }
  }

  lemma RegisteredNote(w: World, pending: set<Note>, x: nat, before: seq<nat>, n: Note)
    requires Evaluates(w, pending, x, before)
    requires n in pending
             || n in StartedNotes(w.ops, DependedOn(w.ops, before, w.ops[x].chain[w.ops[x].current]),
                                  StepRef(x, w.ops[x].current))
    ensures NoteOk(Registered(w, x, before), n)
  {
    DependedOnIn(w.ops, before, w.ops[x].chain[w.ops[x].current]);
    if n in pending {
      assert NoteOk(w, n);
      assert OpOk(w, pending, x, n.from);
    }
  }

  /** Evaluating a step keeps everything in order; an operation whose step depends on nothing stays busy. */
  lemma RegisteredInv(w: World, pending: set<Note>, x: nat, before: seq<nat>)
    requires Evaluates(w, pending, x, before)
    ensures var r := StepRef(x, w.ops[x].current);
            var regs := DependedOn(w.ops, before, w.ops[x].chain[r.index]);
            Inv(Registered(w, x, before), pending + StartedNotes(w.ops, regs, r), if regs == {} then x else -1)
  {
    hide NoteOk, WaitingOk, PassedOk, LoggedOk, DependentsOk, DependedOn, CondMet, Doomed;
    var r := StepRef(x, w.ops[x].current);
    var regs := DependedOn(w.ops, before, w.ops[x].chain[r.index]);
    var v := Registered(w, x, before);
    var more := pending + StartedNotes(w.ops, regs, r);
    var busy := if regs == {} then x else -1;
    forall n <- more ensures NoteOk(v, n) {
      RegisteredNote(w, pending, x, before, n);
    }
    forall y | 0 <= y < |v.ops| ensures OpOk(v, more, busy, y) {
      RegisteredOp(w, pending, x, before, y);
    }
  }

  lemma SameOutcome(w: World, v: World, y: nat)
    requires |w.hist| == |w.ops| == |v.hist| == |v.ops| && y < |w.ops|
    requires PassedOk(w, y) && PassedOk(v, y) && OutcomeOk(w, y)
    requires w.ops[y].state != NotStarted ==>
               v.hist[y] == w.hist[y] && v.ops[y].current == w.ops[y].current
    requires v.ops[y].chain == w.ops[y].chain
    requires forall b :: 0 <= b < |w.ops| ==> w.ops[b].state == v.ops[b].state
    ensures OutcomeOk(v, y)
  {
    hide HistoryOk, CondMet, Doomed;
    SameStates(w.ops, v.ops);
  }

  lemma RegisteredOp(w: World, pending: set<Note>, x: nat, before: seq<nat>, y: nat)
    requires Evaluates(w, pending, x, before) && y < |w.ops|
    ensures var r := StepRef(x, w.ops[x].current);
            var regs := DependedOn(w.ops, before, w.ops[x].chain[r.index]);
            OpOk(Registered(w, x, before), pending + StartedNotes(w.ops, regs, r), if regs == {} then x else -1, y)
  {
    hide NoteOk, WaitingOk, PassedOk, OutcomeOk, LoggedOk, DependentsOk, DependedOn, CondMet, Doomed, ListOk, LogOk;
    assert OpOk(w, pending, x, y);
    var r := StepRef(x, w.ops[x].current);
    var regs := DependedOn(w.ops, before, w.ops[x].chain[r.index]);
    var v := Registered(w, x, before);
    RegisteredDependents(w, pending, x, before, y);
    RegisteredPassed(w, pending, x, before, y);
    RegisteredLogged(w, pending, x, before, y);
    SameOutcome(w, v, y);
    if y == x {
      if regs != {} {
        RegisteredWaits(w, pending, x, before);
      }
    } else if w.ops[y].state == NotStarted {
      RegisteredOther(w, pending, pending + StartedNotes(w.ops, regs, r), x, before, y);
    }
  }

  // ----- an operation is added -----

  function Added(w: World, qualities: set<string>, chain: seq<Step>): World {
    World(w.ops + [Operation(qualities, chain, NotStarted, 0, None, [])], w.list + [|w.ops|], w.hist + [[]], w.log)
  }

  lemma AddedPassed(w: World, qualities: set<string>, chain: seq<Step>, y: nat)
    requires |w.hist| == |w.ops| && y < |w.ops| && PassedOk(w, y) && OutcomeOk(w, y)
    ensures var v := Added(w, qualities, chain); PassedOk(v, y) && OutcomeOk(v, y)
  {
    hide CondMet, Doomed;
    var v := Added(w, qualities, chain);
    forall k | 0 <= k < |v.hist[y]| ensures HistoryOk(v, y, k) {
      assert HistoryOk(w, y, k);
      SameDependedOn(w.ops, v.ops, w.hist[y][k].before, w.ops[y].chain[k]);
    }
    forall step: Step, regs: set<nat>
      ensures CondMet(w.ops, step, regs) ==> CondMet(v.ops, step, regs)
      ensures Doomed(w.ops, step, regs) ==> Doomed(v.ops, step, regs)
    {
      MoreOperations(w.ops, v.ops, step, regs);
    }
  }

  lemma AddedOld(w: World, qualities: set<string>, chain: seq<Step>, y: nat)
    requires Quiescent(w) && y < |w.ops|
    ensures OpOk(Added(w, qualities, chain), {}, |w.ops|, y)
  {
    hide LogOk, ListOk, NoteOk, PassedOk, OutcomeOk, LoggedOk;
    var v := Added(w, qualities, chain);
    assert OpOk(w, {}, -1, y);
    AddedPassed(w, qualities, chain, y);
    SameLogged(w, v, y);
    if w.ops[y].state == NotStarted {
      assert WaitingOk(w, {}, y);
      assert PassedOk(w, y);
      AddedWaits(w, v, y);
    }
  }

  lemma AddedWaits(w: World, v: World, y: nat)
    requires |w.hist| == |w.ops| && |v.hist| == |v.ops| && w.ops <= v.ops && w.hist <= v.hist && y < |w.ops|
    requires WaitingOk(w, {}, y)
    ensures WaitingOk(v, {}, y)
  {
    forall a <- w.hist[y][w.ops[y].current].regs ensures RegOk(v, {}, y, a) {
      assert RegOk(w, {}, y, a);
    }
  }

  lemma SameLogged(w: World, v: World, x: nat)
    requires |w.hist| == |w.ops| && |v.hist| == |v.ops| && x < |w.ops| && x < |v.ops| && LoggedOk(w, x)
    requires v.hist[x] == w.hist[x] && v.ops[x].chain == w.ops[x].chain && v.log == w.log
    ensures LoggedOk(v, x)
  {
  }

  lemma MoreOperations(ops: seq<Operation>, then_: seq<Operation>, step: Step, regs: set<nat>)
    requires ops <= then_
    ensures CondMet(ops, step, regs) ==> CondMet(then_, step, regs)
    ensures Doomed(ops, step, regs) ==> Doomed(then_, step, regs)
  {
    assert forall a :: MetBy(ops, step.trigger, a) ==> MetBy(then_, step.trigger, a);
    assert forall a :: LostBy(ops, step.trigger, a) ==> LostBy(then_, step.trigger, a);
  }

  lemma AddedInv(w: World, qualities: set<string>, chain: seq<Step>)
    requires Quiescent(w)
    ensures Inv(Added(w, qualities, chain), {}, |w.ops|)
  {
    var v := Added(w, qualities, chain);
    assert Ascending(v.list) by {
      forall i | 0 <= i < |w.list| ensures w.list[i] < |w.ops| {
        assert w.list[i] in w.list;
      }
    }
    AddedLog(w, qualities, chain);
    forall y | 0 <= y < |w.ops| ensures OpOk(v, {}, |w.ops|, y) {
      AddedOld(w, qualities, chain, y);
    }
  }

  lemma AddedLog(w: World, qualities: set<string>, chain: seq<Step>)
    requires LogOk(w)
    ensures LogOk(Added(w, qualities, chain))
    ensures Start(|w.ops|) !in w.log && forall s :: End(|w.ops|, s) !in w.log
  {
  }

  // ----- what holds of every run, told by the log -----

  /** An operation starts only when each step of its chain was registered on nothing or has had its condition met. */
  lemma StartsWhenReady(w: World, x: nat, i: nat)
    requires Quiescent(w) && i < |w.log| && w.log[i] == Start(x)
    ensures x < |w.ops| && |w.hist| == |w.ops| && ReadyBy(w.log[..i], w.ops[x].chain, w.hist[x])
  {
    assert Start(x) in w.log;
    assert OpOk(w, {}, -1, x);
  }

  /** Nor does it fail for its dependencies before the condition of its current step is lost for good. */
  lemma FailsWhenHopeless(w: World, x: nat, i: nat)
    requires Quiescent(w) && i < |w.log| && w.log[i] == End(x, FailedDependencies)
    ensures x < |w.ops| && |w.hist| == |w.ops| && HopelessBy(w.log[..i], w.ops[x].chain, w.hist[x])
  {
    assert End(x, FailedDependencies) in w.log;
    assert OpOk(w, {}, -1, x);
  }

  lemma EndedEarlier(log: seq<Entry>, i: nat, j: nat, a: nat)
    requires i <= |log| && j <= |log|
    ensures i <= j && EndedIn(log[..i], a) ==> EndedIn(log[..j], a)
  {
    if i <= j && EndedIn(log[..i], a) {
      var s :| End(a, s) in log[..i];
      assert End(a, s) in log[..j];
    }
  }

  /** What a step was registered on had not finished when the step was evaluated: if it finishes, it does so later. */
  lemma FinishesSince(w: World, x: nat, k: nat, a: nat, i: nat)
    requires Quiescent(w) && x < |w.ops| && |w.hist| == |w.ops| && k < |w.hist[x]| && a in w.hist[x][k].regs
    requires i <= |w.log| && EndedIn(w.log[..i], a)
    ensures w.hist[x][k].since < i && !EndedIn(w.log[..w.hist[x][k].since], a)
  {
    assert OpOk(w, {}, -1, x);
    var h := w.hist[x][k];
    assert HistoryOk(w, x, k);
    DependedOnIn(w.ops, h.before, w.ops[x].chain[k]);
    EndedEarlier(w.log, i, h.since, a);
  }

  /** An operation starts at most once and finishes at most once, never starts after it has finished, and is in the
      list exactly until it finishes. */
  lemma OnceEach(w: World, a: nat)
    requires Quiescent(w)
    ensures a in w.list <==> a < |w.ops| && !EndedIn(w.log, a)
    ensures forall i, j :: 0 <= i < j < |w.log| && w.log[i].op == w.log[j].op ==> w.log[i].Start? && w.log[j].End?
  {
    if a < |w.ops| {
      EndedAsLogged(w, a);
    }
    forall i, j | 0 <= i < j < |w.log| && w.log[i].op == w.log[j].op ensures w.log[i].Start? && w.log[j].End? {
      assert w.log[i] in w.log && w.log[j] in w.log;
    }
  }

  predicate HasQuality(ops: seq<Operation>, a: nat, quality: string) {
    a < |ops| && quality in ops[a].qualities
  }

  /** A step depends on every earlier operation with its quality... */
  lemma {:induction false} DependedOnAll(ops: seq<Operation>, before: seq<nat>, step: Step, a: nat)
    requires step.scope != Latest
    ensures a in DependedOn(ops, before, step) <==> a in before && HasQuality(ops, a, step.quality)
  {
    if before != [] {
      var last, rest := before[|before| - 1], before[..|before| - 1];
      assert before == rest + [last];
      DependedOnAll(ops, rest, step, a);
    }
  }

  lemma LastIsHighest(before: seq<nat>)
    requires Ascending(before) && before != []
    ensures var last, rest := before[|before| - 1], before[..|before| - 1];
            && Ascending(rest) && last in before
            && (forall b: nat :: b in before <==> b == last || b in rest)
            && (forall b <- rest :: b < last)
  {
    assert before == before[..|before| - 1] + [before[|before| - 1]];
  }

  /** ... or, for a "latest" step, on the last of them. */
  lemma {:induction false} DependedOnLatest(ops: seq<Operation>, before: seq<nat>, step: Step, a: nat)
    requires Ascending(before) && step.scope == Latest
    ensures a in DependedOn(ops, before, step) <==> LastWith(ops, before, step.quality, a)
  {
    if before != [] {
      var last, rest := before[|before| - 1], before[..|before| - 1];
      LastIsHighest(before);
      hide Ascending;
      DependedOnLatest(ops, rest, step, a);
    }
  }

  ghost predicate LastWith(ops: seq<Operation>, before: seq<nat>, quality: string, a: nat) {
    && a in before && HasQuality(ops, a, quality)
    && forall b <- before :: HasQuality(ops, b, quality) ==> b <= a
  }
}
