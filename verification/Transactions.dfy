/**
 Transactions on a service: sub-transactions share one buffered update, which is executed when the last of them
 finishes, unless one of them has rolled back.
 */
module Transactions {
  import opened Options

  type Triple = (string, string, string)

  datatype Edit = Insertion(triple: Triple) | Deletion(triple: Triple)

  // ----- what is to happen, without transaction objects -----

  /** The group of transactions that are active together: how many there are, whether one has rolled back, what has
      been edited since the first of them began; and all updates executed so far. */
  datatype Group = Group(active: nat, rolledBack: bool, edits: seq<Edit>, done: seq<seq<Edit>>)

  datatype Event = Begin | Finish(rollback: bool) | Change(edit: Edit)

  function Apply(g: Group, e: Event): (then_: Group)
    requires e.Finish? ==> g.active > 0
    ensures then_.active == g.active + if e.Begin? then 1 else if e.Finish? then -1 else 0
  {
    match e
    case Begin =>
      if g.active == 0 then Group(1, false, [], g.done) else g.(active := g.active + 1)
    case Finish(rollback) =>
      if g.active > 1 then g.(active := g.active - 1, rolledBack := g.rolledBack || rollback)
      else Group(0, false, [], if g.rolledBack || rollback || g.edits == [] then g.done else g.done + [g.edits])
    case Change(edit) =>
      if g.active > 0 then g.(edits := g.edits + [edit]) else g.(done := g.done + [[edit]])
  }

  /** The group stays active throughout the events. */
  predicate StaysActive(g: Group, events: seq<Event>)
    decreases events
  {
    g.active > 0 && (events == [] || StaysActive(Apply(g, events[0]), events[1..]))
  }

  function After(g: Group, events: seq<Event>): Group
    requires StaysActive(g, events)
    decreases events
  {
    if events == [] then g else After(Apply(g, events[0]), events[1..])
  }

  function EditsOf(events: seq<Event>): seq<Edit> {
    if events == [] then []
    else (if events[0].Change? then [events[0].edit] else []) + EditsOf(events[1..])
  }

  lemma {:induction false} WhileActive(g: Group, events: seq<Event>)
    requires StaysActive(g, events)
    ensures After(g, events).done == g.done
    ensures After(g, events).edits == g.edits + EditsOf(events)
    ensures After(g, events).rolledBack <==> g.rolledBack || Finish(true) in events
    decreases events
  {
    if events != [] {
      WhileActive(Apply(g, events[0]), events[1..]);
    }
  }

  /** From its first transaction to its last a group executes all its edits as one update, or nothing at all: nothing
      exactly when one of its transactions has rolled back, or there was nothing to execute. */
  lemma GroupOutcome(g: Group, events: seq<Event>, last: bool)
    requires g.active == 0 && StaysActive(Apply(g, Begin), events) && After(Apply(g, Begin), events).active == 1
    ensures var end := Apply(After(Apply(g, Begin), events), Finish(last));
            && end.active == 0
            && end.done == (if last || Finish(true) in events || EditsOf(events) == [] then g.done
                            else g.done + [EditsOf(events)])
  {
    var first := Apply(g, Begin);
    WhileActive(first, events);
    assert After(first, events).edits == EditsOf(events);
  }

  // ----- the objects -----

  /** The flags of a transaction; `backEnd` stands for those that only the backend knows. */
  datatype Mode = Mode(exclusive: bool, inactive: bool, commitOnDestroy: bool, backEnd: int)

  datatype Handle = Refused | Direct(transaction: Transaction) | Shared(sub: InPlaceSubTransaction)

  class Transaction {
    const service: Service
    const exclusive: bool
    const commitOnDestroy: bool
    const backEnd: int
    var inactive: bool
    var pendingRollback: bool
    var update: seq<Edit>
    var activeSubs: int
    /** The active sub-transactions that share this one. */
    ghost var sharing: set<InPlaceSubTransaction>

    constructor (service: Service, mode: Mode)
      ensures this.service == service && exclusive == mode.exclusive && backEnd == mode.backEnd
      ensures inactive && !pendingRollback && update == [] && activeSubs == 0 && sharing == {}
    {
      this.service, exclusive, commitOnDestroy, backEnd := service, mode.exclusive, mode.commitOnDestroy, mode.backEnd;
      inactive, pendingRollback, update, activeSubs, sharing := true, false, [], 0, {};
    }

    predicate CanAdopt(childExclusive: bool, childBackEnd: int) {
      !exclusive && !childExclusive && backEnd == childBackEnd
    }

    /** Executes what has been buffered; not for a transaction that others still share. */
    method Commit() returns (ok: bool)
      requires !inactive ==> service.transaction == this && sharing == {}
      modifies this`inactive, this`update, service`transaction, service`executed, service`group
      ensures ok == !old(inactive)
      ensures !ok ==> inactive && update == old(update) && service.transaction == old(service.transaction)
      ensures !ok ==> service.executed == old(service.executed) && service.group == old(service.group)
      ensures ok ==> inactive && service.transaction == null && update == []
      ensures ok ==> service.executed == old(service.executed) + if old(update) == [] then [] else [old(update)]
      ensures ok && !exclusive ==> service.group == old(service.group)
      ensures old(service.Valid()) && this in service.transactions && exclusive && ok ==>
        service.Valid() && old(service.group).active > 0 && service.group == Apply(old(service.group), Finish(false))
    {
      if inactive {
        return false;
      }
      // without this the query would only come back into the buffer
      service.transaction := null;
      inactive := true;
      if update != [] {
        service.ExecuteQuery(update);
        update := [];
      }
      if exclusive {
        service.group := Group(0, false, [], service.executed);
      }
      return true;
    }

    /** Drops what has been buffered; not for a transaction that others still share. */
    method Rollback() returns (ok: bool)
      requires !inactive ==> service.transaction == this && sharing == {}
      modifies this`inactive, this`update, this`pendingRollback, service`transaction, service`group
      ensures ok == !old(inactive)
      ensures !ok ==> inactive && update == old(update) && service.transaction == old(service.transaction)
      ensures !ok ==> pendingRollback == old(pendingRollback) && service.group == old(service.group)
      ensures ok ==> inactive && service.transaction == null && update == [] && !pendingRollback
      ensures ok && !exclusive ==> service.group == old(service.group)
      ensures old(service.Valid()) && this in service.transactions && exclusive && ok ==>
        service.Valid() && old(service.group).active > 0 && service.group == Apply(old(service.group), Finish(true))
    {
      if inactive {
        return false;
      }
      service.transaction := null;
      inactive := true;
      pendingRollback := false;
      update := [];
      if exclusive {
        service.group := Group(0, false, [], service.executed);
      }
      return true;
    }

    /** Becomes the active transaction of the service, if there is none. */
    method Reinitiate() returns (ok: bool)
      modifies this`inactive, this`update, service`transaction, service`group
      ensures ok == (old(service.transaction) == null)
      ensures !ok ==>
        inactive == old(inactive) && update == old(update) && service.transaction == old(service.transaction)
      ensures !ok ==> service.group == old(service.group)
      ensures ok ==> !inactive && service.transaction == this && update == []
      ensures ok && !exclusive ==> service.group == old(service.group)
      ensures old(service.Valid()) && this in service.transactions && exclusive && ok ==>
        service.Valid() && service.group == Apply(old(service.group), Begin)
    {
      if service.transaction == null {
        service.transaction := this;
        update := [];
        inactive := false;
        if exclusive {
          service.group := Apply(service.group, Begin);
        }
        return true;
      }
      return false;
    }
  }

  /** The reasons for refusal that the documentation gives while a transaction is active. */
  ghost predicate GoesWith(active: Transaction?, exclusive: bool, backEnd: int)
    reads active
  {
    active != null ==> !exclusive && !active.exclusive && !active.pendingRollback && active.backEnd == backEnd
  }

  class InPlaceSubTransaction {
    const commitOnDestroy: bool
    const backEnd: int
    var inactive: bool
    var parent: Transaction

    constructor (parent: Transaction, mode: Mode)
      ensures this.parent == parent && inactive && backEnd == mode.backEnd && commitOnDestroy == mode.commitOnDestroy
    {
      this.parent, inactive, commitOnDestroy, backEnd := parent, true, mode.commitOnDestroy, mode.backEnd;
    }

    /** One transaction less shares the parent. */
    method Leave()
      requires parent.service.Valid() && this in parent.service.subs && !inactive
      modifies this`inactive, parent`activeSubs, parent`sharing
      ensures inactive && old(parent.service.group).active > 0
      ensures var g := old(parent.service.group); parent.service.Between(parent, g.(active := g.active - 1))
      ensures parent.activeSubs == 0 ==> parent.sharing == {}
    {
      inactive := true;
      parent.activeSubs := parent.activeSubs - 1;
      parent.sharing := parent.sharing - {this};
    }

    /** The last one drops what the group has buffered... */
    method DropAll(ghost g: Group, ghost rollback: bool) returns (ok: bool)
      requires inactive && this in parent.service.subs && parent.sharing == {} && (rollback || g.rolledBack)
      requires g.active == 1 && parent.service.Between(parent, g.(active := 0))
      modifies parent, parent.service
      ensures ok && parent.service.Valid() && inactive && parent.service.group == Apply(g, Finish(rollback))
      ensures parent.service.transactions == old(parent.service.transactions)
              && parent.service.subs == old(parent.service.subs)
    {
      ok := parent.Rollback();
      parent.service.group := Apply(g, Finish(rollback));
    }

    /** ... or executes it. */
    method ExecuteAll(ghost g: Group) returns (ok: bool)
      requires inactive && this in parent.service.subs && parent.sharing == {} && !g.rolledBack
      requires g.active == 1 && parent.service.Between(parent, g.(active := 0))
      modifies parent, parent.service
      ensures ok && parent.service.Valid() && inactive && parent.service.group == Apply(g, Finish(false))
      ensures parent.service.transactions == old(parent.service.transactions)
              && parent.service.subs == old(parent.service.subs)
    {
      ok := parent.Commit();
      parent.service.group := Apply(g, Finish(false));
    }

    /** The last of the group executes its update, unless one of the group has rolled back. */
    method Commit() returns (ok: bool)
      requires parent.service.Valid() && this in parent.service.subs
      modifies this`inactive, parent, parent.service
      ensures parent == old(parent) && parent.service.Valid() && inactive
      ensures parent.service.transactions == old(parent.service.transactions)
              && parent.service.subs == old(parent.service.subs)
      ensures old(inactive) ==> !ok && parent.service.group == old(parent.service.group)
      ensures !old(inactive) ==> old(parent.service.group).active > 0
      ensures !old(inactive) ==> parent.service.group == Apply(old(parent.service.group), Finish(false))
      ensures !old(inactive) ==> ok == (old(parent.service.group).active == 1 && !old(parent.service.group).rolledBack)
    {
      if inactive {
        return false;
      }
      ghost var g := parent.service.group;
      Leave();
      if parent.activeSubs != 0 {
        parent.service.group := Apply(g, Finish(false));
        return false;
      }
      if parent.pendingRollback {
        var _ := DropAll(g, false);
        return false;
      }
      ok := ExecuteAll(g);
    }

    /** Dooms the group; the last one drops the update. */
    method Rollback() returns (ok: bool)
      requires parent.service.Valid() && this in parent.service.subs
      modifies this`inactive, parent, parent.service
      ensures parent == old(parent) && parent.service.Valid() && inactive
      ensures parent.service.transactions == old(parent.service.transactions)
              && parent.service.subs == old(parent.service.subs)
      ensures old(inactive) ==> !ok && parent.service.group == old(parent.service.group)
      ensures !old(inactive) ==> old(parent.service.group).active > 0
      ensures !old(inactive) ==> parent.service.group == Apply(old(parent.service.group), Finish(true))
      ensures !old(inactive) ==> ok == (old(parent.service.group).active == 1)
    {
      if inactive {
        return false;
      }
      ghost var g := parent.service.group;
      Leave();
      if parent.activeSubs != 0 {
        parent.pendingRollback := true;
        parent.service.group := Apply(g, Finish(true));
        return false;
      }
      ok := DropAll(g, true);
    }

    /** Whether it becomes active by the documentation: while another one is, only if that goes with it and is not
        pending rollback. */
    ghost predicate MayInitiate()
      reads this, parent, parent.service, parent.service.transaction
    {
      inactive && GoesWith(parent.service.transaction, false, backEnd)
    }

    /** Joins the active group, or begins one. Joins even a group that is bound to be rolled back, against the
        documentation. */
    method Reinitiate() returns (ok: bool)
      requires parent.service.Valid() && this in parent.service.subs
      modifies this`inactive, this`parent, parent, parent.service, parent.service.transaction
      ensures parent.service == old(parent.service) && parent.service.Valid()
      ensures parent.service.transactions == old(parent.service.transactions)
              && parent.service.subs == old(parent.service.subs)
      ensures ok == (old(inactive) && (old(parent.activeSubs) > 0 || old(parent.service.transaction) == null
                                       || old(parent.service.transaction).CanAdopt(false, backEnd)))
      ensures ok == old(MayInitiate()) <==> !ok || !old(parent.service.group).rolledBack
      ensures ok ==> !inactive && parent == parent.service.transaction
      ensures ok ==> parent.service.group == Apply(old(parent.service.group), Begin)
      ensures ok && old(parent.service.transaction) != null ==> parent == old(parent.service.transaction)
      ensures !ok ==>
        inactive == old(inactive) && parent == old(parent) && parent.service.group == old(parent.service.group)
    {
      if !inactive {
        return false;
      }
      ghost var g := parent.service.group;
      if parent.activeSubs == 0 {
        var active := parent.service.transaction;
        if active == null {
          var _ := parent.Reinitiate();
        } else if !active.CanAdopt(false, backEnd) {
          return false;
        } else {
          parent := active;
        }
      }
      Join(g);
      return true;
    }

    method Join(ghost g: Group)
      requires inactive && this in parent.service.subs && parent.service.Between(parent, g)
      requires g.active == 0 ==> !g.rolledBack && g.edits == []
      modifies this`inactive, parent`activeSubs, parent`sharing, parent.service`group
      ensures parent.service.Valid() && !inactive && parent.service.group == Apply(g, Begin)
    {
      parent.activeSubs := parent.activeSubs + 1;
      parent.sharing := parent.sharing + {this};
      inactive := false;
      parent.service.group := Apply(g, Begin);
    }
  }

  class Service {
    var transaction: Transaction?
    /** The updates executed so far. */
    var executed: seq<seq<Edit>>
    ghost var transactions: set<Transaction>
    ghost var subs: set<InPlaceSubTransaction>
    ghost var group: Group

    ghost predicate Valid()
      reads this, transactions, subs
    {
      Shape() && Active() && Tied()
    }

    /** Each transaction counts the active sub-transactions that share it. */
    ghost predicate Shape()
      reads this, transactions, subs
    {
      && (forall t <- transactions ::
            t.service == this && t.activeSubs == |t.sharing| && (t.exclusive ==> t.sharing == {}))
      && (forall t <- transactions, s <- t.sharing :: s in subs && s.parent == t && !s.inactive)
      && (forall s <- subs :: s.parent in transactions && !s.parent.exclusive && s.parent.backEnd == s.backEnd
                              && (!s.inactive ==> s in s.parent.sharing))
    }

    /** Only the transaction of the service is active, and only it is shared by active sub-transactions. */
    ghost predicate Active()
      reads this, transactions
    {
      && (transaction != null ==> transaction in transactions && (transaction.exclusive || transaction.sharing != {}))
      && forall t <- transactions ::
           && (!t.inactive <==> transaction == t)
           && (t.inactive ==> t.sharing == {} && !t.pendingRollback)
    }

    /** The buffer and the counters are those of the group. */
    ghost predicate Tied()
      reads this, transaction
    {
      && executed == group.done
      && (transaction == null ==> group.active == 0 && !group.rolledBack && group.edits == [])
      && (transaction != null ==>
            && group.active == (if transaction.exclusive then 1 else transaction.activeSubs)
            && group.rolledBack == transaction.pendingRollback && group.edits == transaction.update
            && (transaction.exclusive ==> !transaction.pendingRollback))
    }

    /** The transaction is that of the service, active and shared as often as the group says. */
    ghost predicate Between(t: Transaction, g: Group)
      reads this, transactions, subs, t
    {
      && Shape() && transaction == t && t in transactions && !t.exclusive
      && (forall o <- transactions ::
            (!o.inactive <==> o == t) && (o.inactive ==> o.sharing == {} && !o.pendingRollback))
      && executed == g.done && g.active == t.activeSubs
      && t.update == g.edits && t.pendingRollback == g.rolledBack
    }

    constructor ()
      ensures Valid() && transaction == null && group == Group(0, false, [], [])
    {
      transaction, executed, transactions, subs, group := null, [], {}, {}, Group(0, false, [], []);
    }

    /** With an active transaction an update only joins its buffer. */
    method ExecuteQuery(update: seq<Edit>)
      modifies this`executed, transaction
      ensures transaction == null ==> executed == old(executed) + [update]
      ensures transaction != null ==>
        executed == old(executed) && transaction.update == old(transaction.update) + update
    {
      if transaction != null {
        transaction.update := transaction.update + update;
      } else {
        executed := executed + [update];
      }
    }

    method InsertTripleToGraph(triple: Triple)
      requires Valid()
      modifies this`executed, this`group, transaction
      ensures Valid() && group == Apply(old(group), Change(Insertion(triple)))
    {
      if transaction == null {
        ExecuteQuery([Insertion(triple)]);
      } else {
        transaction.update := transaction.update + [Insertion(triple)];
      }
      group := Apply(group, Change(Insertion(triple)));
    }

    method DeleteTripleFromGraph(triple: Triple)
      requires Valid()
      modifies this`executed, this`group, transaction
      ensures Valid() && group == Apply(old(group), Change(Deletion(triple)))
    {
      if transaction == null {
        ExecuteQuery([Deletion(triple)]);
      } else {
        transaction.update := transaction.update + [Deletion(triple)];
      }
      group := Apply(group, Change(Deletion(triple)));
    }

    method NewTransaction(mode: Mode) returns (t: Transaction)
      requires Valid()
      modifies this`transactions
      ensures Valid() && fresh(t) && transactions == old(transactions) + {t}
      ensures t.service == this && t.exclusive == mode.exclusive && t.backEnd == mode.backEnd
      ensures t.inactive && t.activeSubs == 0
    {
      t := new Transaction(this, mode);
      transactions := transactions + {t};
    }

    method NewSub(parent: Transaction, mode: Mode) returns (s: InPlaceSubTransaction)
      requires Valid() && parent in transactions && !parent.exclusive && parent.backEnd == mode.backEnd
      modifies this`subs
      ensures Valid() && fresh(s) && subs == old(subs) + {s}
      ensures s.parent == parent && s.inactive && s.backEnd == mode.backEnd
    {
      s := new InPlaceSubTransaction(parent, mode);
      subs := subs + {s};
    }

    /** A new transaction of its own, or a new sub-transaction in the active group or in one to come; refused when it
        should be active at once and the active transaction does not go with it. */
    method CreateTransaction(mode: Mode) returns (handle: Handle)
      requires Valid()
      modifies this, transaction
      ensures Valid() && transactions >= old(transactions) && subs >= old(subs)
      ensures fresh(transactions - old(transactions)) && fresh(subs - old(subs))
      ensures handle.Refused? <==>
              !mode.inactive && old(transaction) != null && !old(transaction).CanAdopt(mode.exclusive, mode.backEnd)
      ensures !mode.inactive ==>
        (handle.Refused? == !old(GoesWith(transaction, mode.exclusive, mode.backEnd)) <==>
         handle.Refused? || !old(group).rolledBack)
      ensures handle.Direct? ==> mode.exclusive && fresh(handle.transaction) && handle.transaction in transactions
      ensures handle.Direct? ==> handle.transaction.exclusive && handle.transaction.inactive == mode.inactive
      ensures handle.Shared? ==> !mode.exclusive && fresh(handle.sub) && handle.sub in subs
      ensures handle.Shared? ==> handle.sub.inactive == mode.inactive && handle.sub.parent.service == this
      ensures handle.Shared? ==> handle.sub.backEnd == mode.backEnd
      ensures handle.Shared? && old(transaction) != null && old(transaction).CanAdopt(mode.exclusive, mode.backEnd) ==>
        handle.sub.parent == old(transaction)
      ensures group == if handle.Refused? || mode.inactive then old(group) else Apply(old(group), Begin)
    {
      var mid: Transaction;
      if transaction != null && transaction.CanAdopt(mode.exclusive, mode.backEnd) {
        mid := transaction;
      } else if mode.inactive || transaction == null {
        mid := NewTransaction(mode);
      } else {
        return Refused;
      }
      if mode.exclusive {
        handle := Direct(mid);
        if !mode.inactive {
          var _ := mid.Reinitiate();
        }
      } else {
        var sub := NewSub(mid, mode);
        handle := Shared(sub);
        if !mode.inactive {
          var _ := sub.Reinitiate();
        }
      }
    }
  }

  /** Two transactions share a group and the second of them rolls back. */
  method Doom(first: InPlaceSubTransaction, second: InPlaceSubTransaction)
    requires var service := first.parent.service;
             service.Valid() && {first, second} <= service.subs && service.transaction == null
    requires first != second && first.inactive && second.inactive && first.backEnd == second.backEnd
    modifies first, second, first.parent, second.parent, first.parent.service
    ensures first.parent == old(first.parent) && first.parent.service.Valid() && !first.inactive
    ensures var service := first.parent.service;
            && service.transaction == first.parent && first.parent.backEnd == first.backEnd
            && service.subs == old(service.subs) && service.transactions == old(service.transactions)
            && service.group == Group(1, true, [], old(service.group.done))
  {
    var _ := first.Reinitiate();
    var _ := second.Reinitiate();
    var _ := second.Rollback();
  }

  /** A third still joins a group that is pending rollback, and what it edits is never executed. */
  method JoinsInVain(first: InPlaceSubTransaction, third: InPlaceSubTransaction, triple: Triple)
    returns (joined: bool, ghost documented: bool, ghost taken: seq<Edit>)
    requires var service := first.parent.service;
             service.Valid() && {first, third} <= service.subs && third.parent.service == service
    requires var service := first.parent.service;
             service.group.active == 1 && service.group.rolledBack && service.transaction == first.parent
    requires !first.inactive && third.inactive && third.backEnd == first.parent.backEnd
    modifies first, third, first.parent, third.parent, first.parent.service
    ensures joined && !documented && taken == old(first.parent.service.group).edits + [Insertion(triple)]
    ensures var service := old(first.parent.service);
            service.Valid() && service.group.active == 0 && service.executed == old(service.executed)
  {
    documented := third.MayInitiate();
    joined := third.Reinitiate();
    first.parent.service.InsertTripleToGraph(triple);
    taken := first.parent.service.group.edits;
    var _ := third.Commit();
    var _ := first.Commit();
  }

  /** It can come to that on every service without active transaction. */
  method DoomedGroup(service: Service, backEnd: int, triple: Triple) returns (joined: bool, ghost documented: bool,
                                                                        ghost taken: seq<Edit>)
    requires service.Valid() && service.transaction == null
    modifies service, service.transactions
    ensures joined && !documented && taken == [Insertion(triple)]
    ensures service.Valid() && service.group.active == 0 && service.executed == old(service.executed)
  {
    var mode := Mode(false, true, false, backEnd);
    var first := service.CreateTransaction(mode);
    var second := service.CreateTransaction(mode);
    var third := service.CreateTransaction(mode);
    Doom(first.sub, second.sub);
    joined, documented, taken := JoinsInVain(first.sub, third.sub, triple);
  }
}
