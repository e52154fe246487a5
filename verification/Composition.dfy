/**
 Modules attached to a compositor. The modules that implement an interface are linked, in the order of the
 compositor's list, into a ring that begins and ends at the compositor's own base module.
 */
module Composition {
  import opened Options

  predicate AllDifferent<T(==)>(s: seq<T>) {
    forall i, j :: 0 <= i < j < |s| ==> s[i] != s[j]
  }

  type InterfaceList = s: seq<string> | AllDifferent(s) witness []

  /** A module that belongs to one compositor at a time. */
  class Module {
    const interfaces: InterfaceList
    var compositor: Compositor?
    /** For each interface the module to which a call goes on. */
    var next: map<string, Module>

    constructor (interfaces: InterfaceList)
      ensures this.interfaces == interfaces && compositor == null
      ensures next == map i | i in interfaces :: this
    {
      this.interfaces := interfaces;
      compositor := null;
      new;
      next := map i | i in interfaces :: this;
    }

    method FindPrevious(face: string, exclusive: nat, modules: seq<Module?>) returns (found: Module?)
      requires exclusive <= |modules|
      ensures var impl := Implementers(modules[..exclusive], face);
              found == if impl == [] then null else impl[|impl| - 1]
    {
      hide Implementers;
      NoImplementer(face);
      var cur := exclusive;
      assert modules[..exclusive] == modules[..cur];
      while cur != 0
        invariant cur <= exclusive
        invariant Implementers(modules[..exclusive], face) == Implementers(modules[..cur], face)
      {
        cur := cur - 1;
        assert modules[..cur + 1] == modules[..cur] + [modules[cur]];
        ImplementersOfBoth(modules[..cur], [modules[cur]], face);
        OneImplementer(modules[cur], face);
        var m := modules[cur];
        if m != null && face in m.interfaces {
          return m;
        }
      }
      return null;
    }

    method FindNext(face: string, inclusive: nat, modules: seq<Module?>) returns (found: Module?)
      requires inclusive <= |modules|
      ensures var impl := Implementers(modules[inclusive..], face);
              found == if impl == [] then null else impl[0]
    {
      hide Implementers;
      NoImplementer(face);
      assert modules[|modules|..] == [];
      var cur := inclusive;
      while cur != |modules|
        invariant inclusive <= cur <= |modules|
        invariant Implementers(modules[inclusive..], face) == Implementers(modules[cur..], face)
      {
        assert modules[cur..] == [modules[cur]] + modules[cur + 1..];
        ImplementersOfBoth([modules[cur]], modules[cur + 1..], face);
        OneImplementer(modules[cur], face);
        var m := modules[cur];
        if m != null && face in m.interfaces {
          return m;
        }
        cur := cur + 1;
      }
      return null;
    }

    method SetNext(face: string, to: Module, ghost modules: seq<Module?>)
      requires this in modules
      modifies this`next
      ensures Links(modules) == old(Links(modules))[face := old(Next(modules, face))[this := to]]
    {
      next := next[face := to];
      assert Next(modules, face) == old(Next(modules, face))[this := to];
      assert forall other :: other != face ==> Next(modules, other) == old(Next(modules, other));
    }

    method ClearNext(face: string, ghost modules: seq<Module?>)
      requires this in modules
      modifies this`next
      ensures Links(modules) == old(Links(modules))[face := old(Next(modules, face)) - {this}]
    {
      next := next - {face};
      assert Next(modules, face) == old(Next(modules, face)) - {this};
      assert forall other :: other != face ==> Next(modules, other) == old(Next(modules, other));
    }

    /** Links this module, already at `place` in the list, into the ring of an interface. */
    method InterfaceAttach(face: string, place: nat, modules: seq<Module?>)
      requires place < |modules| && modules[place] == this && face in interfaces && Linkable(modules, place, face)
      modifies (set m: Module | m in modules)`next
      ensures Links(modules) == old(Links(modules))[face :=
                LinkedIn(old(Next(modules, face)), Implementers(modules[..place], face), this,
                         Implementers(modules[place + 1..], face))]
    {
      hide Implementers;
      var prev := FindPrevious(face, place, modules);
      if prev != null {
        assert Links(modules)[face] == Next(modules, face);
        SetNext(face, prev.next[face], modules);
        assert Links(modules)[face] == Next(modules, face);
        prev.SetNext(face, this, modules);
      } else {
        var after := FindNext(face, place + 1, modules);
        if after != null {
          SetNext(face, after, modules);
        } else {
          SetNext(face, this, modules);
        }
      }
    }

    /** Takes this module, still at `place` in the list, out of the ring of an interface. */
    method InterfaceDetach(face: string, place: nat, modules: seq<Module?>)
      requires place < |modules| && modules[place] == this && face in interfaces && face in next
      requires Linkable(modules, place, face)
      modifies (set m: Module | m in modules)`next
      ensures Links(modules) == old(Links(modules))[face :=
                LinkedOut(old(Next(modules, face)), Implementers(modules[..place], face), this)]
    {
      hide Implementers;
      var prev := FindPrevious(face, place, modules);
      if prev != null {
        assert Links(modules)[face] == Next(modules, face);
        prev.SetNext(face, next[face], modules);
        assert Links(modules)[face] == Next(modules, face);
      }
      ClearNext(face, modules);
    }
  }

  // ----- rings -----

  function Implementers(modules: seq<Module?>, face: string): (impl: seq<Module>)
    ensures forall m <- impl :: m in modules && face in m.interfaces
  {
    if modules == [] then []
    else
      (if modules[0] != null && face in modules[0].interfaces then [modules[0]] else [])
      + Implementers(modules[1..], face)
  }

  lemma {:induction false} ImplementersOfBoth(front: seq<Module?>, back: seq<Module?>, face: string)
    ensures Implementers(front + back, face) == Implementers(front, face) + Implementers(back, face)
  {
    if front == [] {
      assert front + back == back;
    } else {
      assert (front + back)[1..] == front[1..] + back;
      ImplementersOfBoth(front[1..], back, face);
    }
  }

  lemma OneImplementer(m: Module?, face: string)
    ensures Implementers([m], face) == if m != null && face in m.interfaces then [m] else []
  {
    assert [m][1..] == [];
  }

  lemma NoImplementer(face: string)
    ensures Implementers([], face) == []
  {
  }

  predicate Apart(modules: seq<Module?>) {
    forall i, j :: 0 <= i < j < |modules| && modules[i] != null ==> modules[i] != modules[j]
  }

  lemma {:induction false} ImplementersApart(modules: seq<Module?>, face: string)
    requires Apart(modules)
    ensures AllDifferent(Implementers(modules, face))
  {
    if modules != [] {
      ImplementersApart(modules[1..], face);
      assert forall m <- Implementers(modules[1..], face) :: m != modules[0];
    }
  }

  lemma Turned<T>(s: seq<T>)
    requires s != [] && AllDifferent(s)
    ensures AllDifferent(s[1..] + [s[0]])
  {
  }

  /** Where a call of the interface goes on from each of the modules. */
  ghost function Next(modules: seq<Module?>, face: string): map<Module, Module>
    reads set m: Module | m in modules
  {
    map m: Module | m in modules && face in m.next :: m.next[face]
  }

  ghost function Links(modules: seq<Module?>): imap<string, map<Module, Module>>
    reads set m: Module | m in modules
  {
    imap face | true :: Next(modules, face)
  }

  /** The module in front of `place` in the ring, if there is one, is another module that is linked. */
  ghost predicate Linkable(modules: seq<Module?>, place: nat, face: string)
    requires place < |modules|
    reads set m: Module | m in modules
  {
    var impl := Implementers(modules[..place], face);
    impl != [] ==>
      var prev := impl[|impl| - 1];
      prev in modules && prev != modules[place] && face in prev.next
  }

  /** Each module leads to the one behind it, the last to the first. */
  predicate Ring(impl: seq<Module>, next: map<Module, Module>) {
    forall k :: 0 <= k < |impl| ==> impl[k] in next && next[impl[k]] == impl[if k + 1 < |impl| then k + 1 else 0]
  }

  /** The step back to the first one is the only one that leads there. */
  lemma RingStep(impl: seq<Module>, next: map<Module, Module>, k: nat)
    requires Ring(impl, next) && AllDifferent(impl) && k < |impl|
    ensures impl[k] in next && next[impl[k]] == impl[if k + 1 < |impl| then k + 1 else 0]
    ensures next[impl[k]] == impl[0] <==> k + 1 == |impl|
  {
  }

  function LinkedIn(next: map<Module, Module>, front: seq<Module>, m: Module, back: seq<Module>): map<Module, Module>
    requires front != [] ==> front[|front| - 1] in next
  {
    if front != [] then var prev := front[|front| - 1]; next[m := next[prev]][prev := m]
    else if back != [] then next[m := back[0]]
    else next[m := m]
  }

  function LinkedOut(next: map<Module, Module>, front: seq<Module>, m: Module): map<Module, Module>
    requires m in next
  {
    (if front != [] then next[front[|front| - 1] := next[m]] else next) - {m}
  }

  /** A module that is linked in leads to the one behind it, or else to the first, and the one in front leads to it. */
  lemma LinkedInIs(next: map<Module, Module>, front: seq<Module>, m: Module, back: seq<Module>)
    requires AllDifferent(front + [m] + back) && Ring(front + back, next)
    requires front != [] ==> front[|front| - 1] in next
    ensures var then_ := LinkedIn(next, front, m, back);
            && then_.Keys == next.Keys + {m}
            && then_[m] == (if back != [] then back[0] else if front != [] then front[0] else m)
            && (front != [] ==> then_[front[|front| - 1]] == m)
            && forall x :: x in next && x != m && (front != [] ==> x != front[|front| - 1]) ==> then_[x] == next[x]
  {
    if front != [] {
      var last := |front| - 1;
      var all := front + back;
      assert all[last] == front[last] && all[0] == front[0] && (back != [] ==> all[last + 1] == back[0]);
      assert next[all[last]] == all[if last + 1 < |all| then last + 1 else 0];
      assert (front + [m] + back)[last] == front[last] && (front + [m] + back)[last + 1] == m;
    }
  }

  /** Where a module is taken out the one in front leads to the one behind it, or else to the first. */
  lemma LinkedOutIs(next: map<Module, Module>, front: seq<Module>, m: Module, back: seq<Module>)
    requires AllDifferent(front + [m] + back) && Ring(front + [m] + back, next) && m in next
    ensures var then_ := LinkedOut(next, front, m);
            && then_.Keys == next.Keys - {m}
            && (front != [] ==>
                  && front[|front| - 1] in then_
                  && then_[front[|front| - 1]] == if back != [] then back[0] else front[0])
            && forall x :: x in then_ && (front != [] ==> x != front[|front| - 1]) ==> then_[x] == next[x]
  {
    hide AllDifferent;
    if front != [] {
      RingAround(next, front, m, back);
    }
  }

  /** What is in front of a module in a ring differs from it, and the module leads to what is behind it. */
  lemma RingAround(next: map<Module, Module>, front: seq<Module>, m: Module, back: seq<Module>)
    requires AllDifferent(front + [m] + back) && Ring(front + [m] + back, next) && front != []
    ensures front[|front| - 1] != m && front[|front| - 1] in next && next[front[|front| - 1]] == m
    ensures m in next && next[m] == if back != [] then back[0] else front[0]
  {
    var whole, k := front + [m] + back, |front|;
    assert whole[k] == m && whole[k - 1] == front[k - 1] && whole[0] == front[0];
    assert next[whole[k]] == whole[if k + 1 < |whole| then k + 1 else 0];
    assert next[whole[k - 1]] == whole[k];
    assert back != [] ==> whole[k + 1] == back[0];
  }

  /** Linking a module in keeps the ring whole exactly when there is a module in front of it, or no other. */
  lemma LinkingIn(next: map<Module, Module>, front: seq<Module>, m: Module, back: seq<Module>)
    requires AllDifferent(front + [m] + back) && Ring(front + back, next)
    requires front != [] ==> front[|front| - 1] in next
    ensures Ring(front + [m] + back, LinkedIn(next, front, m, back)) <==> front != [] || back == []
  {
    var whole, old_, then_ := front + [m] + back, front + back, LinkedIn(next, front, m, back);
    if front == [] && back != [] {
      var last := |whole| - 1;
      assert whole[last] == old_[last - 1] && whole[0] == m;
      assert next[old_[last - 1]] == old_[0];
      assert then_[whole[last]] == old_[0] && old_[0] == whole[1];
      assert then_[whole[last]] != whole[0];
    } else {
      forall k | 0 <= k < |whole|
        ensures whole[k] in then_ && then_[whole[k]] == whole[if k + 1 < |whole| then k + 1 else 0]
      {
        if k < |front| - 1 {
          assert whole[k] == old_[k] && whole[k + 1] == old_[k + 1];
          assert whole[k] != whole[|front| - 1] && whole[k] != whole[|front|];
        } else if k > |front| {
          assert whole[k] == old_[k - 1] && whole[0] == old_[0];
          assert whole[|front| - 1] != whole[k] && whole[|front|] != whole[k];
          if k + 1 < |whole| {
            assert whole[k + 1] == old_[k];
          }
        } else if k == |front| && front != [] {
          assert whole[|front| - 1] == old_[|front| - 1] && whole[0] == old_[0];
          if k + 1 < |whole| {
            assert whole[k + 1] == old_[k];
          }
        }
      }
    }
  }

  /** Taking a module out keeps the ring whole exactly when there is a module in front of it, or no other. */
  lemma LinkingOut(next: map<Module, Module>, front: seq<Module>, m: Module, back: seq<Module>)
    requires AllDifferent(front + [m] + back) && Ring(front + [m] + back, next) && m in next
    ensures Ring(front + back, LinkedOut(next, front, m)) <==> front != [] || back == []
  {
    var whole, then_, after := front + [m] + back, front + back, LinkedOut(next, front, m);
    assert whole[|front|] == m;
    if front == [] && back != [] {
      var last := |then_| - 1;
      assert then_[last] == whole[last + 1];
      assert next[whole[last + 1]] == m;
      assert whole[0] == m && whole[1] == then_[0];
      assert after[then_[last]] != then_[0];
    } else {
      forall k | 0 <= k < |then_|
        ensures then_[k] in after && after[then_[k]] == then_[if k + 1 < |then_| then k + 1 else 0]
      {
        if k < |front| - 1 {
          assert then_[k] == whole[k] && then_[k + 1] == whole[k + 1];
          assert whole[k] != m && whole[k] != whole[|front| - 1];
        } else if k == |front| - 1 {
          assert then_[k] == whole[k] == front[k] && then_[0] == whole[0];
          assert after[then_[k]] == next[m];
          if k + 1 < |then_| {
            assert then_[k + 1] == whole[k + 2];
          }
        } else {
          assert then_[k] == whole[k + 1] && then_[0] == whole[0];
          assert whole[|front| - 1] != whole[k + 1] && m != whole[k + 1];
          if k + 1 < |then_| {
            assert then_[k + 1] == whole[k + 2];
          }
        }
      }
    }
  }

  /** The list without the entry at a place. */
  function Without(modules: seq<Module?>, place: nat): seq<Module?>
    requires place < |modules|
  {
    modules[..place] + modules[place + 1..]
  }

  lemma Around(modules: seq<Module?>, place: nat, face: string)
    requires place < |modules|
    ensures var front, back := Implementers(modules[..place], face), Implementers(modules[place + 1..], face);
            var m := modules[place];
            && Implementers(Without(modules, place), face) == front + back
            && Implementers(modules, face)
               == if m != null && face in m.interfaces then front + [m] + back else front + back
  {
    hide Implementers;
    assert modules == modules[..place] + [modules[place]] + modules[place + 1..];
    ImplementersOfBoth(modules[..place], modules[place + 1..], face);
    ImplementersOfBoth(modules[..place], [modules[place]], face);
    ImplementersOfBoth(modules[..place] + [modules[place]], modules[place + 1..], face);
    OneImplementer(modules[place], face);
  }

  /** Behind the base module every ring of one of its interfaces has something in front. */
  lemma BaseInFront(modules: seq<Module?>, place: nat, face: string)
    requires 0 < place <= |modules| && modules[0] != null && face in modules[0].interfaces
    ensures Implementers(modules[..place], face) != []
  {
    assert modules[..place][0] == modules[0];
  }

  lemma InFront(modules: seq<Module?>, place: nat, face: string)
    requires place < |modules| && Apart(modules) && modules[place] != null
    ensures forall m <- Implementers(modules[..place], face) ::
              m in modules && m != modules[place] && face in m.interfaces
  {
    hide Implementers;
    forall m <- Implementers(modules[..place], face) ensures m in modules && m != modules[place] {
      assert m in modules[..place];
      var k :| 0 <= k < place && modules[..place][k] == m;
      assert modules[k] == m;
    }
  }

  /** The interfaces of the modules in the list are linked, but for one module maybe. */
  ghost predicate Linked(modules: seq<Module?>, links: imap<string, map<Module, Module>>, except: Module?) {
    && Apart(modules) && (forall face :: face in links)
    && forall m: Module, face :: m in modules && m != except && face in m.interfaces ==> m in links[face]
  }

  ghost predicate Whole(modules: seq<Module?>, links: imap<string, map<Module, Module>>, face: string) {
    face in links && Ring(Implementers(modules, face), links[face])
  }

  /** A module at `place` has been linked for its first `i` interfaces. */
  ghost predicate PartlyLinked(
    modules: seq<Module?>, links: imap<string, map<Module, Module>>, place: nat, i: nat)
  {
    && 0 < place < |modules| && modules[0] != null && modules[place] != null && i <= |modules[place].interfaces|
    && Linked(modules, links, modules[place])
    && (forall k :: 0 <= k < i ==> modules[place] in links[modules[place].interfaces[k]])
    && forall face <- modules[0].interfaces ::
         if face in modules[place].interfaces[i..] then Whole(Without(modules, place), links, face)
         else Whole(modules, links, face)
  }

  lemma LinkFirst(modules: seq<Module?>, links: imap<string, map<Module, Module>>, place: nat)
    requires 0 < place < |modules| && modules[0] != null && modules[place] != null
    requires Linked(modules, links, modules[place])
    requires forall face <- modules[0].interfaces :: Whole(Without(modules, place), links, face)
    ensures PartlyLinked(modules, links, place, 0)
  {
    hide Ring, Implementers, Without;
    forall face <- modules[0].interfaces | face !in modules[place].interfaces[0..] ensures Whole(modules, links, face) {
      Around(modules, place, face);
    }
  }

  /** What a module finds in front of it in one of its rings. */
  lemma FrontFacts(modules: seq<Module?>, links: imap<string, map<Module, Module>>, place: nat, face: string)
    requires place < |modules| && modules[place] != null && Linked(modules, links, modules[place])
    ensures var front := Implementers(modules[..place], face);
            face in links &&
            (front != [] ==>
               var prev := front[|front| - 1];
               prev in links[face] && prev in modules && prev != modules[place])
  {
    hide Implementers;
    var front := Implementers(modules[..place], face);
    InFront(modules, place, face);
    if front != [] {
      assert front[|front| - 1] in front;
    }
  }

  lemma LinkOne(modules: seq<Module?>, links: imap<string, map<Module, Module>>, place: nat, face: string)
    requires 0 < place < |modules| && modules[place] != null && modules[0] != null
    requires Linked(modules, links, modules[place])
    requires face in modules[0].interfaces && face in modules[place].interfaces
             && Whole(Without(modules, place), links, face)
    ensures var front, back := Implementers(modules[..place], face), Implementers(modules[place + 1..], face);
            && (front != [] ==> front[|front| - 1] in links[face])
            && Whole(modules, links[face := LinkedIn(links[face], front, modules[place], back)], face)
  {
    hide Ring, Implementers, Without, LinkedIn;
    var front, back := Implementers(modules[..place], face), Implementers(modules[place + 1..], face);
    FrontFacts(modules, links, place, face);
    Around(modules, place, face);
    BaseInFront(modules, place, face);
    ImplementersApart(modules, face);
    LinkingIn(links[face], front, modules[place], back);
  }

  lemma LinkNext(modules: seq<Module?>, links: imap<string, map<Module, Module>>, place: nat, i: nat)
    requires PartlyLinked(modules, links, place, i) && i < |modules[place].interfaces|
    ensures var face := modules[place].interfaces[i];
            var front, back := Implementers(modules[..place], face), Implementers(modules[place + 1..], face);
            && (front != [] ==> front[|front| - 1] in links[face])
            && (front != [] ==> front[|front| - 1] in modules && front[|front| - 1] != modules[place])
            && PartlyLinked(modules, links[face := LinkedIn(links[face], front, modules[place], back)], place, i + 1)
  {
    hide Ring, Implementers, Without, Apart;
    var m := modules[place];
    var face := m.interfaces[i];
    var front, back := Implementers(modules[..place], face), Implementers(modules[place + 1..], face);
    FrontFacts(modules, links, place, face);
    var then_ := links[face := LinkedIn(links[face], front, m, back)];
    assert m.interfaces[i..] == [face] + m.interfaces[i + 1..];
    assert face !in m.interfaces[i + 1..];
    if face in modules[0].interfaces {
      LinkOne(modules, links, place, face);
    }
    StillLinked(modules, links, then_, m, face);
    forall other <- modules[0].interfaces
      ensures if other in m.interfaces[i + 1..] then Whole(Without(modules, place), then_, other)
              else Whole(modules, then_, other)
    {
      if other != face {
        assert then_[other] == links[other];
        assert other in m.interfaces[i..] <==> other in m.interfaces[i + 1..];
      }
    }
  }

  /** Nothing but one ring has changed, and in it no module has lost its place. */
  lemma StillLinked(modules: seq<Module?>, links: imap<string, map<Module, Module>>,
                    then_: imap<string, map<Module, Module>>, except: Module, face: string)
    requires Linked(modules, links, except) && face in then_ && then_ == links[face := then_[face]]
    requires forall m: Module :: m in links[face] && m != except ==> m in then_[face]
    ensures Linked(modules, then_, except)
  {
    hide Apart;
  }

  lemma LinkLast(modules: seq<Module?>, links: imap<string, map<Module, Module>>, place: nat)
    requires place < |modules| && modules[place] != null
    requires PartlyLinked(modules, links, place, |modules[place].interfaces|)
    ensures Linked(modules, links, null) && forall face <- modules[0].interfaces :: Whole(modules, links, face)
  {
    hide Whole;
    forall m: Module, face | m in modules && face in m.interfaces ensures m in links[face] {
      if m == modules[place] {
        var k :| 0 <= k < |m.interfaces| && m.interfaces[k] == face;
      }
    }
  }

  /** A module at `place` has been unlinked from its first `i` interfaces. */
  ghost predicate PartlyUnlinked(
    modules: seq<Module?>, links: imap<string, map<Module, Module>>, place: nat, i: nat)
  {
    && 0 < place < |modules| && modules[0] != null && modules[place] != null && i <= |modules[place].interfaces|
    && Linked(modules, links, modules[place])
    && (forall k :: i <= k < |modules[place].interfaces| ==> modules[place] in links[modules[place].interfaces[k]])
    && forall face <- modules[0].interfaces ::
         if face in modules[place].interfaces[i..] then Whole(modules, links, face)
         else Whole(Without(modules, place), links, face)
  }

  lemma UnlinkFirst(modules: seq<Module?>, links: imap<string, map<Module, Module>>, place: nat)
    requires 0 < place < |modules| && modules[0] != null && modules[place] != null
    requires Linked(modules, links, null)
    requires forall face <- modules[0].interfaces :: Whole(modules, links, face)
    ensures PartlyUnlinked(modules, links, place, 0)
  {
    hide Ring, Implementers, Without;
    forall face <- modules[0].interfaces | face !in modules[place].interfaces[0..]
      ensures Whole(Without(modules, place), links, face)
    {
      Around(modules, place, face);
    }
  }

  lemma UnlinkOne(modules: seq<Module?>, links: imap<string, map<Module, Module>>, place: nat, face: string)
    requires 0 < place < |modules| && modules[place] != null && modules[0] != null
    requires Linked(modules, links, modules[place])
    requires face in modules[0].interfaces && face in modules[place].interfaces && Whole(modules, links, face)
    requires modules[place] in links[face]
    ensures Whole(Without(modules, place),
                  links[face := LinkedOut(links[face], Implementers(modules[..place], face), modules[place])], face)
  {
    hide Ring, Implementers, Without, LinkedOut;
    Around(modules, place, face);
    BaseInFront(modules, place, face);
    ImplementersApart(modules, face);
    LinkingOut(links[face], Implementers(modules[..place], face), modules[place],
               Implementers(modules[place + 1..], face));
  }

  lemma UnlinkNext(modules: seq<Module?>, links: imap<string, map<Module, Module>>, place: nat, i: nat)
    requires PartlyUnlinked(modules, links, place, i) && i < |modules[place].interfaces|
    ensures var face := modules[place].interfaces[i];
            var front := Implementers(modules[..place], face);
            && modules[place] in links[face]
            && (front != [] ==> front[|front| - 1] in links[face])
            && (front != [] ==> front[|front| - 1] in modules && front[|front| - 1] != modules[place])
            && PartlyUnlinked(modules, links[face := LinkedOut(links[face], front, modules[place])], place, i + 1)
  {
    hide Ring, Implementers, Without, Apart;
    var m := modules[place];
    var face := m.interfaces[i];
    var front := Implementers(modules[..place], face);
    FrontFacts(modules, links, place, face);
    var then_ := links[face := LinkedOut(links[face], front, m)];
    assert m.interfaces[i..] == [face] + m.interfaces[i + 1..];
    assert face !in m.interfaces[i + 1..];
    if face in modules[0].interfaces {
      UnlinkOne(modules, links, place, face);
    }
    StillLinked(modules, links, then_, m, face);
    forall other <- modules[0].interfaces
      ensures if other in m.interfaces[i + 1..] then Whole(modules, then_, other)
              else Whole(Without(modules, place), then_, other)
    {
      if other != face {
        assert then_[other] == links[other];
        assert other in m.interfaces[i..] <==> other in m.interfaces[i + 1..];
      }
    }
  }

  lemma UnlinkLast(modules: seq<Module?>, links: imap<string, map<Module, Module>>, place: nat)
    requires place < |modules| && modules[place] != null
    requires PartlyUnlinked(modules, links, place, |modules[place].interfaces|)
    ensures Linked(modules, links, modules[place])
    ensures forall face <- modules[0].interfaces :: Whole(Without(modules, place), links, face)
  {
    hide Whole;
  }

  /** A ring does not notice links of modules that are not in it. */
  lemma OtherLinks(impl: seq<Module>, next: map<Module, Module>, then_: map<Module, Module>)
    requires forall m <- impl :: m in next ==> m in then_ && then_[m] == next[m]
    requires Ring(impl, next)
    ensures Ring(impl, then_)
  {
    forall k | 0 <= k < |impl| ensures impl[k] in then_ && then_[impl[k]] == next[impl[k]] {
      assert impl[k] in impl;
    }
  }

  lemma ApartWithout(modules: seq<Module?>, place: nat)
    requires place < |modules| && Apart(modules)
    ensures Apart(Without(modules, place))
    ensures forall m: Module :: m in Without(modules, place) ==> m in modules && m != modules[place]
  {
    var core := Without(modules, place);
    forall m: Module | m in core ensures m in modules && m != modules[place] {
      var k :| 0 <= k < |core| && core[k] == m;
      assert core[k] == modules[if k < place then k else k + 1];
    }
    forall i, j | 0 <= i < j < |core| && core[i] != null ensures core[i] != core[j] {
      assert core[i] == modules[if i < place then i else i + 1] && core[j] == modules[if j < place then j else j + 1];
    }
  }

  lemma ApartWith(core: seq<Module?>, place: nat, m: Module?)
    requires place <= |core| && Apart(core) && (m != null ==> m !in core)
    ensures Apart(core[..place] + [m] + core[place..])
    ensures forall o: Module :: o in core[..place] + [m] + core[place..] <==> o == m || o in core
  {
    var modules := core[..place] + [m] + core[place..];
    assert core == core[..place] + core[place..];
    forall i, j | 0 <= i < j < |modules| && modules[i] != null ensures modules[i] != modules[j] {
      assert i != place ==> modules[i] == core[if i < place then i else i - 1] && modules[i] in core;
      assert j != place ==> modules[j] == core[if j < place then j else j - 1] && modules[j] in core;
    }
  }

  /** Taking the unlinked module, or the empty entry, off the list. */
  lemma TakenOff(modules: seq<Module?>, place: nat)
    requires 0 < place < |modules| && modules[0] != null
    requires Linked(modules, Links(modules), modules[place])
    requires forall face <- modules[0].interfaces :: Whole(Without(modules, place), Links(modules), face)
    ensures var core := Without(modules, place);
            && |core| > 0 && core[0] == modules[0] && Linked(core, Links(core), null)
            && forall face <- modules[0].interfaces :: Whole(core, Links(core), face)
  {
    hide Ring, Implementers, Apart;
    var core := Without(modules, place);
    ApartWithout(modules, place);
    forall m: Module, face | m in core && face in m.interfaces ensures m in Links(core)[face] {
      assert m in modules && m != modules[place];
      assert m in Links(modules)[face];
    }
    forall face <- modules[0].interfaces ensures Whole(core, Links(core), face) {
      OtherLinks(Implementers(core, face), Next(modules, face), Next(core, face));
    }
  }

  /** Putting a module that is not there yet, or an empty entry, into the list. */
  lemma PutOn(core: seq<Module?>, place: nat, m: Module?)
    requires 0 < place <= |core| && core[0] != null && (m != null ==> m !in core)
    requires Linked(core, Links(core), null)
    requires forall face <- core[0].interfaces :: Whole(core, Links(core), face)
    ensures var modules := core[..place] + [m] + core[place..];
            && modules[0] == core[0] && Without(modules, place) == core && Linked(modules, Links(modules), m)
            && forall face <- core[0].interfaces :: Whole(core, Links(modules), face)
  {
    hide Ring, Implementers, Apart;
    var modules := core[..place] + [m] + core[place..];
    assert Without(modules, place) == core;
    ApartWith(core, place, m);
    forall o: Module, face | o in modules && o != m && face in o.interfaces ensures o in Links(modules)[face] {
      assert o in core;
      assert o in Links(core)[face];
    }
    forall face <- core[0].interfaces ensures Whole(core, Links(modules), face) {
      OtherLinks(Implementers(core, face), Next(core, face), Next(modules, face));
    }
  }

  /** An empty entry makes no difference to the rings. */
  lemma EmptyEntry(modules: seq<Module?>, links: imap<string, map<Module, Module>>, place: nat, face: string)
    requires place < |modules| && modules[place] == null
    ensures Whole(modules, links, face) == Whole(Without(modules, place), links, face)
  {
    hide Ring, Implementers;
    Around(modules, place, face);
  }

  class Compositor {
    const base: Module
    var modules: seq<Module?>

    /** For each interface of the base module, the modules that implement it form a ring in the order of the list. */
    ghost predicate Valid()
      reads this, set m: Module | m in modules
    {
      Ringed() && forall m: Module :: m in modules ==> m.compositor == this
    }

    ghost predicate Ringed()
      reads this, set m: Module | m in modules
    {
      && |modules| > 0 && modules[0] == base && Linked(modules, Links(modules), null)
      && forall face <- base.interfaces :: Whole(modules, Links(modules), face)
    }

    constructor (interfaces: InterfaceList)
      ensures Valid() && modules == [base] && base.interfaces == interfaces && fresh(base)
    {
      var b := new Module(interfaces);
      base := b;
      modules := [b];
      new;
      base.compositor := this;
      forall face <- base.interfaces ensures Whole(modules, Links(modules), face) {
        OneImplementer(base, face);
      }
    }

    /** Links a module that has just been put into the list. */
    method Link(place: nat)
      requires 0 < place < |modules| && modules[0] == base && modules[place] != null
      requires PartlyLinked(modules, Links(modules), place, 0)
      modifies (set m: Module | m in modules)`next
      ensures Ringed()
    {
      hide PartlyLinked, Linked, Whole, Implementers;
      var m := modules[place];
      var i := 0;
      while i < |m.interfaces|
        invariant 0 <= i <= |m.interfaces|
        invariant PartlyLinked(modules, Links(modules), place, i)
      {
        LinkNext(modules, Links(modules), place, i);
        m.InterfaceAttach(m.interfaces[i], place, modules);
        i := i + 1;
      }
      LinkLast(modules, Links(modules), place);
    }

    /** Unlinks a module that is about to leave the list. */
    method Unlink(place: nat)
      requires 0 < place < |modules| && modules[place] != null && Ringed()
      modifies (set m: Module | m in modules)`next
      ensures modules[0] == base && Linked(modules, Links(modules), modules[place])
      ensures forall face <- base.interfaces :: Whole(Without(modules, place), Links(modules), face)
    {
      hide PartlyUnlinked, Linked, Whole, Implementers;
      var m := modules[place];
      UnlinkFirst(modules, Links(modules), place);
      var i := 0;
      while i < |m.interfaces|
        invariant 0 <= i <= |m.interfaces|
        invariant PartlyUnlinked(modules, Links(modules), place, i)
      {
        UnlinkNext(modules, Links(modules), place, i);
        m.InterfaceDetach(m.interfaces[i], place, modules);
        i := i + 1;
      }
      UnlinkLast(modules, Links(modules), place);
    }

    /** The list once a module, not there yet, or an empty entry has been put into a whole list. */
    method Settle(place: nat)
      requires 0 < place < |modules| && modules[0] == base && Linked(modules, Links(modules), modules[place])
      requires forall face <- base.interfaces :: Whole(Without(modules, place), Links(modules), face)
      modifies (set m: Module | m in modules)`next
      ensures Ringed()
    {
      hide Linked, Whole, Implementers, Links, PartlyLinked;
      if modules[place] != null {
        LinkFirst(modules, Links(modules), place);
        Link(place);
      } else {
        forall face <- base.interfaces ensures Whole(modules, Links(modules), face) {
          EmptyEntry(modules, Links(modules), place, face);
        }
      }
    }

    lemma ApartHere(place: nat)
      requires place < |modules| && Linked(modules, Links(modules), modules[place])
      ensures Apart(modules)
    {
    }

    /** The list as it would be without the entry at a place is made whole. */
    method Unsettle(place: nat)
      requires 0 < place < |modules| && Ringed()
      modifies (set m: Module | m in modules)`next
      ensures var core := Without(modules, place);
              && |core| > 0 && core[0] == base && Linked(core, Links(core), null)
              && (forall face <- base.interfaces :: Whole(core, Links(core), face))
              && forall m: Module :: m in core ==> m in modules && m != modules[place]
    {
      hide Linked, Whole, Implementers, Links;
      if modules[place] != null {
        Unlink(place);
      } else {
        forall face <- base.interfaces ensures Whole(Without(modules, place), Links(modules), face) {
          EmptyEntry(modules, Links(modules), place, face);
        }
      }
      TakenOff(modules, place);
      ApartHere(place);
      ApartWithout(modules, place);
    }

    /** Puts a module (or an empty entry) into the list behind the base module. A module that does not agree, or
        belongs to a compositor already, is not attached. */
    method AttachModule(before: nat, m: Module?, agrees: bool) returns (handle: Option<nat>)
      requires Valid() && 0 < before <= |modules|
      modifies this`modules, m, set o: Module | o in modules
      ensures Valid()
      ensures handle.Some? ==>
                handle.value == before && modules == old(modules)[..before] + [m] + old(modules)[before..]
      ensures handle.None? ==> modules == old(modules) && Links(modules) == old(Links(modules))
      ensures handle.None? <==> m != null && (!agrees || old(m.compositor) != null)
    {
      hide Linked, Whole, Implementers, Links;
      if m != null {
        if !agrees || m.compositor != null {
          return None;
        }
        m.compositor := this;
      }
      PutOn(modules, before, m);
      modules := modules[..before] + [m] + modules[before..];
      Settle(before);
      return Some(before);
    }

    /** Takes the entry at a place behind the base module off the list, if the module there agrees. */
    method DetachModule(place: nat, agrees: bool) returns (detached: bool)
      requires Valid() && 0 < place < |modules|
      modifies this`modules, set o: Module | o in modules
      ensures Valid()
      ensures detached ==> modules == old(modules)[..place] + old(modules)[place + 1..]
      ensures detached && old(modules)[place] != null ==> old(modules)[place].compositor == null
      ensures !detached ==> modules == old(modules) && Links(modules) == old(Links(modules))
      ensures detached <==> old(modules)[place] == null || agrees
    {
      hide Linked, Whole, Implementers, Links;
      var m := modules[place];
      if m != null && !agrees {
        return false;
      }
      Unsettle(place);
      modules := Without(modules, place);
      if m != null {
        m.compositor := null;
      }
      return true;
    }

    /** Puts another module, or none, in the place of the one there. */
    method ReplaceModule(place: nat, other: Module?, leaves: bool, agrees: bool) returns (handle: Option<nat>)
      requires Valid() && 0 < place < |modules|
      modifies this`modules, other, set o: Module | o in modules
      ensures Valid()
      ensures handle.Some? ==> handle.value == place && modules == old(modules)[place := other]
      ensures handle.Some? && old(modules)[place] != null && old(modules)[place] != other ==>
                old(modules)[place].compositor == null
      ensures handle.None? ==> modules == old(modules) && Links(modules) == old(Links(modules))
      ensures handle.None? <==>
        && old(modules)[place] != other
        && ((old(modules)[place] != null && !leaves)
            || (other != null && (!agrees || old(other.compositor) != null)))
    {
      hide Linked, Whole, Implementers, Links;
      var m := modules[place];
      if m == other {
        return Some(place);
      }
      if m != null && !leaves {
        return None;
      }
      if other != null {
        if !agrees || other.compositor != null {
          return None;
        }
        other.compositor := this;
      }
      Unsettle(place);
      ghost var core := Without(modules, place);
      PutOn(core, place, other);
      assert core[..place] + [other] + core[place..] == modules[place := other];
      modules := modules[place := other];
      Settle(place);
      if m != null {
        m.compositor := null;
      }
      return Some(place);
    }

    /** A call of an interface of the base module, forwarded by every module it comes to: it visits all the others that
        implement the interface, once each and in the order of the list, and ends at the base module. */
    method Forward(face: string) returns (visited: seq<Module>)
      requires Valid() && face in base.interfaces
      ensures visited == Implementers(modules, face)[1..] + [base]
      ensures AllDifferent(visited)
    {
      ghost var impl := Implementers(modules, face);
      BaseFirst(modules, face);
      ImplementersApart(modules, face);
      assert Whole(modules, Links(modules), face);
      assert Ring(impl, Next(modules, face));
      Turned(impl);
      hide Implementers, Linked, Whole, Links, Ring, AllDifferent;
      ghost var k := 0;
      var current := base;
      visited := [];
      while true
        invariant 0 <= k < |impl| && current == impl[k] && visited == impl[1..k + 1]
        decreases |impl| - k
      {
        RingStep(impl, Next(modules, face), k);
        current := current.next[face];
        VisitedOn(impl, k, visited, current);
        visited := visited + [current];
        if current == base {
          break;
        }
        k := k + 1;
      }
    }
  }

  lemma VisitedOn<T>(impl: seq<T>, k: nat, visited: seq<T>, current: T)
    requires k < |impl| && visited == impl[1..k + 1]
    ensures k + 1 == |impl| ==> visited + [current] == impl[1..] + [current]
    ensures k + 1 < |impl| && current == impl[k + 1] ==> visited + [current] == impl[1..k + 2]
  {
  }

  lemma BaseFirst(modules: seq<Module?>, face: string)
    requires |modules| > 0 && modules[0] != null && face in modules[0].interfaces
    ensures Implementers(modules, face) != [] && Implementers(modules, face)[0] == modules[0]
  {
  }
}
