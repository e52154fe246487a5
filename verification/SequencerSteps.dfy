/**
 One step of a dependency chain by itself: it counts what its sub-objects (operations, or chains in the
 branches of the step) tell it, and gives its verdict once.
 */
module SequencerSteps {
  import opened SequencerWorld

  /** Something a sub-object tells its step. */
  datatype Tidings = Tidings(part: nat, event: Event)

  /** No sub-object starts twice, finishes twice, or starts after it has finished; it need not have started. */
  predicate Proper(n: nat, seen: seq<Tidings>) {
    && (forall i :: 0 <= i < |seen| ==> seen[i].part < n)
    && (forall i, j :: 0 <= i < j < |seen| && seen[i].part == seen[j].part ==>
          seen[i].event == EvStarted && seen[j].event != EvStarted)
  }

  function Numbers(n: nat): (r: set<nat>)
    ensures forall i: nat :: i in r <==> i < n
    ensures |r| == n
  {
    if n == 0 then {} else Numbers(n - 1) + {n - 1}
  }

  /** The sub-objects that have matched the condition. */
  function Got(t: Trigger, seen: seq<Tidings>): set<nat> {
    set e | e in seen && Matches(t, e.event) :: e.part
  }

  /** The sub-objects that have not finished. */
  function Open(n: nat, seen: seq<Tidings>): set<nat> {
    Numbers(n) - set e | e in seen && e.event != EvStarted :: e.part
  }

  /** Whatever the sub-objects do from now on, too few of them will match. */
  ghost predicate Hopeless(n: nat, scope: Scope, t: Trigger, seen: seq<Tidings>) {
    forall more :: Proper(n, seen + more) ==> |Got(t, seen + more)| < Need(scope, n)
  }

  function FinishingMatch(t: Trigger): Event {
    if t == OnFailed then EvFailed else EvSucceeded
  }

  lemma GotOneMore(t: Trigger, seen: seq<Tidings>, e: Tidings)
    ensures Got(t, seen + [e]) == Got(t, seen) + if Matches(t, e.event) then {e.part} else {}
  {
    var more := seen + [e];
    assert forall d :: d in more <==> d in seen || d == e;
  }

  lemma OpenOneMore(n: nat, seen: seq<Tidings>, e: Tidings)
    ensures Open(n, seen + [e]) == Open(n, seen) - if e.event != EvStarted then {e.part} else {}
  {
    var more := seen + [e];
    assert forall d :: d in more <==> d in seen || d == e;
  }

  lemma SomethingNew(n: nat, t: Trigger, seen: seq<Tidings>, e: Tidings)
    requires Proper(n, seen + [e])
    ensures Matches(t, e.event) ==> e.part !in Got(t, seen)
    ensures e.event != EvStarted ==> e.part in Open(n, seen)
  {
    var more := seen + [e];
    assert more[|seen|] == e;
    forall d | d in seen && d.part == e.part ensures d.event == EvStarted && e.event != EvStarted {
      var i :| 0 <= i < |seen| && seen[i] == d;
      assert more[i] == d;
    }
  }

  lemma OneMoreSeen(n: nat, t: Trigger, seen: seq<Tidings>, e: Tidings)
    requires Proper(n, seen + [e])
    ensures |Got(t, seen + [e])| == |Got(t, seen)| + if Matches(t, e.event) then 1 else 0
    ensures |Open(n, seen + [e])| == |Open(n, seen)| - if e.event != EvStarted then 1 else 0
  {
    hide Got, Open, Proper;
    GotOneMore(t, seen, e);
    OpenOneMore(n, seen, e);
    SomethingNew(n, t, seen, e);
  }

  /** A sub-object that has not finished or matched still can. */
  lemma OneMoreCan(n: nat, t: Trigger, seen: seq<Tidings>, k: nat) returns (e: Tidings)
    requires Proper(n, seen) && k in Open(n, seen) && k !in Got(t, seen)
    ensures Proper(n, seen + [e])
    ensures Got(t, seen + [e]) == Got(t, seen) + {k} && Open(n, seen) - {k} <= Open(n, seen + [e])
  {
    hide Proper, Got, Open;
    e := Tidings(k, if t == OnStarted then EvStarted else FinishingMatch(t));
    ProperOn(n, t, seen, e);
    GotOneMore(t, seen, e);
    OpenOneMore(n, seen, e);
  }

  lemma ProperOn(n: nat, t: Trigger, seen: seq<Tidings>, e: Tidings)
    requires Proper(n, seen) && e.part in Open(n, seen) && e.part !in Got(t, seen)
    requires if t == OnStarted then e.event == EvStarted else e.event != EvStarted
    ensures Proper(n, seen + [e])
  {
    forall i | 0 <= i < |seen| && seen[i].part == e.part
      ensures seen[i].event == EvStarted && e.event != EvStarted
    {
      assert seen[i] in seen;
    }
  }

  lemma Regrouped(got: set<nat>, k: nat, todo: set<nat>)
    requires k in todo
    ensures got + {k} + (todo - {k}) == got + todo
  {
  }

  lemma {:induction false} AllTheseCan(n: nat, t: Trigger, seen: seq<Tidings>, todo: set<nat>)
    returns (more: seq<Tidings>)
    requires Proper(n, seen) && todo <= Open(n, seen) && todo !! Got(t, seen)
    ensures Proper(n, seen + more) && Got(t, seen + more) == Got(t, seen) + todo
    decreases |todo|
  {
    hide Got, Open, Proper;
    if todo == {} {
      more := [];
      assert seen + more == seen;
    } else {
      var k :| k in todo;
      var e := OneMoreCan(n, t, seen, k);
      var others := todo - {k};
      Regrouped(Got(t, seen), k, todo);
      var rest := AllTheseCan(n, t, seen + [e], others);
      more := [e] + rest;
      assert seen + more == seen + [e] + rest;
    }
  }

  /** Only sub-objects that have matched or not finished can ever be among those that match. */
  lemma OnlyTheseCan(n: nat, t: Trigger, seen: seq<Tidings>, more: seq<Tidings>)
    requires Proper(n, seen + more)
    ensures Got(t, seen + more) <= Got(t, seen) + Open(n, seen)
  {
    var all := seen + more;
    forall k | k in Got(t, all) && k !in Got(t, seen) ensures k in Open(n, seen) {
      var e :| e in all && Matches(t, e.event) && e.part == k;
      var j :| 0 <= j < |all| && all[j] == e;
      assert j < |seen| ==> e in seen;
      forall d | d in seen && d.part == k ensures d.event == EvStarted {
        var i :| 0 <= i < |seen| && seen[i] == d;
        assert all[i] == d;
      }
    }
  }

  /** The condition is out of reach exactly when too few sub-objects have matched or may still. */
  lemma HopelessExactly(n: nat, scope: Scope, t: Trigger, seen: seq<Tidings>)
    requires Proper(n, seen)
    ensures Hopeless(n, scope, t, seen) <==> |Got(t, seen) + Open(n, seen)| < Need(scope, n)
  {
    hide Got, Open, Proper;
    if |Got(t, seen) + Open(n, seen)| < Need(scope, n) {
      forall more | Proper(n, seen + more) ensures |Got(t, seen + more)| < Need(scope, n) {
        OnlyTheseCan(n, t, seen, more);
        Smaller(Got(t, seen + more), Got(t, seen) + Open(n, seen));
      }
    } else {
      var more := AllTheseCan(n, t, seen, Open(n, seen) - Got(t, seen));
      assert Got(t, seen) + (Open(n, seen) - Got(t, seen)) == Got(t, seen) + Open(n, seen);
    }
  }

  /** The step gives up when its counters say so. */
  predicate GivesUp(n: nat, scope: Scope, t: Trigger, seen: seq<Tidings>) {
    |Got(t, seen)| + |Open(n, seen)| < Need(scope, n)
  }

  /** It never gives up while the condition can still be met. */
  lemma GivesUpOnlyWhenHopeless(n: nat, scope: Scope, t: Trigger, seen: seq<Tidings>)
    requires Proper(n, seen) && GivesUp(n, scope, t, seen)
    ensures Hopeless(n, scope, t, seen)
  {
    HopelessExactly(n, scope, t, seen);
    assert |Got(t, seen) + Open(n, seen)| <= |Got(t, seen)| + |Open(n, seen)|;
  }

  /** The sub-objects that have finished without matching: the condition has lost them. */
  function Lost(n: nat, t: Trigger, seen: seq<Tidings>): set<nat> {
    Numbers(n) - Got(t, seen) - Open(n, seen)
  }

  lemma WithinNumbers(n: nat, t: Trigger, seen: seq<Tidings>)
    requires Proper(n, seen)
    ensures Got(t, seen) <= Numbers(n) && Open(n, seen) <= Numbers(n)
    ensures t != OnStarted ==> Got(t, seen) !! Open(n, seen)
  {
    forall k | k in Got(t, seen) ensures k in Numbers(n) && (t != OnStarted ==> k !in Open(n, seen)) {
      var e :| e in seen && Matches(t, e.event) && e.part == k;
      var i :| 0 <= i < |seen| && seen[i] == e;
    }
  }

  lemma LostCount(n: nat, got: set<nat>, open: set<nat>)
    requires got <= Numbers(n) && open <= Numbers(n)
    ensures |got + open| + |got * open| == |got| + |open|
    ensures |Numbers(n) - got - open| == n - |got + open|
    ensures |got + open| < 1 ==> |got| + |open| < 1
    ensures got !! open ==> |got * open| == 0
  {
    assert Numbers(n) == (got + open) + (Numbers(n) - got - open);
    if |got + open| < 1 {
      assert got + open == {};
      assert got == {} && open == {};
    }
    if got !! open {
      assert got * open == {};
    }
  }

  /** It gives up as soon as the condition is out of reach, but for one case: when all should start, and no more have
      finished without starting than have started without finishing. */
  lemma GivesUpAtOnce(n: nat, scope: Scope, t: Trigger, seen: seq<Tidings>)
    requires 0 < n && Proper(n, seen)
    ensures (Hopeless(n, scope, t, seen) ==> GivesUp(n, scope, t, seen)) <==>
            !(scope == All && t == OnStarted && 0 < |Lost(n, t, seen)| <= |Got(t, seen) * Open(n, seen)|)
  {
    hide Got, Open, Proper, Hopeless;
    HopelessExactly(n, scope, t, seen);
    WithinNumbers(n, t, seen);
    LostCount(n, Got(t, seen), Open(n, seen));
  }

  /** In that case it is late: of two operations that should both start one has, and the other fails without. */
  lemma GivesUpLate()
    ensures var seen := [Tidings(0, EvStarted), Tidings(1, EvFailed)];
            Proper(2, seen) && Hopeless(2, All, OnStarted, seen) && !GivesUp(2, All, OnStarted, seen)
  {
    hide Got, Open;
    var seen := [Tidings(0, EvStarted)];
    GotOneMore(OnStarted, [], Tidings(0, EvStarted));
    OpenOneMore(2, [], Tidings(0, EvStarted));
    GotOneMore(OnStarted, seen, Tidings(1, EvFailed));
    OpenOneMore(2, seen, Tidings(1, EvFailed));
    NothingSeen(2, OnStarted);
    assert [] + [Tidings(0, EvStarted)] == seen
           && seen + [Tidings(1, EvFailed)] == [Tidings(0, EvStarted), Tidings(1, EvFailed)];
    assert Got(OnStarted, seen + [Tidings(1, EvFailed)]) == {0};
    assert Open(2, seen + [Tidings(1, EvFailed)]) == {0} by {
      assert Open(2, seen) == {0, 1};
    }
    HopelessExactly(2, All, OnStarted, seen + [Tidings(1, EvFailed)]);
    assert {0} + {0} == {0};
  }

  lemma NothingSeen(n: nat, t: Trigger)
    ensures Got(t, []) == {} && Open(n, []) == Numbers(n)
  {
  }

  // ----- verdicts over a run -----

  /** The event with which the last of those required matches. */
  predicate SucceedsWith(n: nat, scope: Scope, t: Trigger, seen: seq<Tidings>) {
    seen != [] && Matches(t, seen[|seen| - 1].event) && |Got(t, seen)| == Need(scope, n)
  }

  /** An event with which the counters say that the condition is out of reach. */
  predicate FailsWith(n: nat, scope: Scope, t: Trigger, seen: seq<Tidings>) {
    seen != [] && seen[|seen| - 1].event != EvStarted && GivesUp(n, scope, t, seen)
  }

  lemma ProperFront(n: nat, seen: seq<Tidings>, i: nat)
    requires Proper(n, seen) && i <= |seen|
    ensures Proper(n, seen[..i])
  {
  }

  lemma GotGrows(t: Trigger, seen: seq<Tidings>, i: nat)
    requires i <= |seen|
    ensures |Got(t, seen[..i])| <= |Got(t, seen)|
  {
    assert seen == seen[..i] + seen[i..];
    Smaller(Got(t, seen[..i]), Got(t, seen));
  }

  /** After success there is no verdict any more... */
  lemma NothingAfterSuccess(n: nat, scope: Scope, t: Trigger, seen: seq<Tidings>, i: nat)
    requires Proper(n, seen) && i < |seen| && |Got(t, seen[..i])| >= Need(scope, n)
    ensures !SucceedsWith(n, scope, t, seen) && !FailsWith(n, scope, t, seen)
  {
    hide Proper, Got, Open, Need;
    var last := |seen| - 1;
    ProperFront(n, seen, last);
    assert seen == seen[..last] + [seen[last]] && seen[..last][..i] == seen[..i];
    OneMoreSeen(n, t, seen[..last], seen[last]);
    GotGrows(t, seen[..last], i);
  }

  /** ... and after failure there is no success, though there may be failure again. */
  lemma NoSuccessAfterFailure(n: nat, scope: Scope, t: Trigger, seen: seq<Tidings>, i: nat)
    requires Proper(n, seen) && i <= |seen| && GivesUp(n, scope, t, seen[..i])
    ensures !SucceedsWith(n, scope, t, seen)
  {
    hide Proper, Got, Open, Need, GivesUp;
    ProperFront(n, seen, i);
    GivesUpOnlyWhenHopeless(n, scope, t, seen[..i]);
    assert seen == seen[..i] + seen[i..];
  }

  /** Over a whole run there is success at most once, and never both success and failure. */
  lemma OneVerdict(n: nat, scope: Scope, t: Trigger, seen: seq<Tidings>, i: nat, j: nat)
    requires Proper(n, seen) && i <= |seen| && j <= |seen| && SucceedsWith(n, scope, t, seen[..i])
    ensures !FailsWith(n, scope, t, seen[..j]) && (SucceedsWith(n, scope, t, seen[..j]) ==> i == j)
  {
    hide Proper, Got, Open, Need;
    ProperFront(n, seen, i);
    ProperFront(n, seen, j);
    if i < j {
      assert seen[..j][..i] == seen[..i];
      NothingAfterSuccess(n, scope, t, seen[..j], i);
    } else if j < i {
      assert seen[..i][..j] == seen[..j];
      if |Got(t, seen[..j])| >= Need(scope, n) {
        NothingAfterSuccess(n, scope, t, seen[..i], j);
      }
      if GivesUp(n, scope, t, seen[..j]) {
        NoSuccessAfterFailure(n, scope, t, seen[..i], j);
      }
    }
  }

  /** Failure can come twice: of three operations that should all start one fails without, and then another. */
  lemma FailsTwice()
    ensures var seen := [Tidings(0, EvFailed), Tidings(1, EvFailed)];
            && Proper(3, seen) && FailsWith(3, All, OnStarted, seen[..1]) && FailsWith(3, All, OnStarted, seen)
  {
    hide Got, Open;
    var one := [Tidings(0, EvFailed)];
    var both := [Tidings(0, EvFailed), Tidings(1, EvFailed)];
    NothingSeen(3, OnStarted);
    GotOneMore(OnStarted, [], one[0]);
    OpenOneMore(3, [], one[0]);
    GotOneMore(OnStarted, one, both[1]);
    OpenOneMore(3, one, both[1]);
    assert [] + [one[0]] == one && one + [both[1]] == both && both[..1] == one;
    assert Open(3, one) == {1, 2} && Open(3, both) == {2};
  }

  class SequencerStep {
    const scope: Scope
    const trigger: Trigger
    const count: nat
    var requiredSubObjects: int
    var remainingSubObjects: int
    ghost var seen: seq<Tidings>

    /** The counters are right. */
    ghost predicate Counted()
      reads this
    {
      && Proper(count, seen) && 0 < count
      && requiredSubObjects == Need(scope, count) - |Got(trigger, seen)|
      && remainingSubObjects == |Open(count, seen)|
    }

    /** No verdict has been given yet. */
    ghost predicate Undecided()
      reads this
    {
      Counted() && 1 <= requiredSubObjects <= remainingSubObjects
    }

    /** A step primed with the number of its sub-objects. */
    constructor (scope: Scope, trigger: Trigger, count: nat)
      requires 0 < count
      ensures Undecided() && seen == []
      ensures this.scope == scope && this.trigger == trigger && this.count == count
    {
      this.scope, this.trigger, this.count := scope, trigger, count;
      remainingSubObjects := count;
      requiredSubObjects := if scope == Any || scope == Latest then 1 else count;
      seen := [];
      new;
      assert Got(trigger, []) == {} && Open(count, []) == Numbers(count);
    }

    /** Success the moment enough sub-objects have matched, failure when the counters rule it out; the first verdict
        comes at the latest with the last event, and is never both. */
    method SubObjectEvent(part: nat, event: Event) returns (succeeded: bool, failed: bool)
      requires Counted() && Proper(count, seen + [Tidings(part, event)])
      modifies `requiredSubObjects, `remainingSubObjects, `seen
      ensures Counted() && seen == old(seen) + [Tidings(part, event)]
      ensures succeeded <==> SucceedsWith(count, scope, trigger, seen)
      ensures failed <==> FailsWith(count, scope, trigger, seen)
      ensures !(succeeded && failed)
      ensures old(Undecided()) ==> (succeeded <==> |Got(trigger, seen)| >= Need(scope, count))
      ensures old(Undecided()) ==> (failed <==> GivesUp(count, scope, trigger, seen))
      ensures old(Undecided()) && !succeeded && !failed ==> Undecided()
      ensures old(Undecided()) && Open(count, seen) == {} ==> succeeded || failed
    {
      hide Proper, Got, Open;
      ghost var e := Tidings(part, event);
      OneMoreSeen(count, trigger, seen, e);
      seen := seen + [e];
      succeeded, failed := false, false;
      if Matches(trigger, event) {
        requiredSubObjects := requiredSubObjects - 1;
        succeeded := requiredSubObjects == 0;
      }
      if event != EvStarted {
        remainingSubObjects := remainingSubObjects - 1;
        failed := remainingSubObjects < requiredSubObjects;
      }
    }
  }
}
