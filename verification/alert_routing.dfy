/** Which alerts one response delivers. */
module AlertRouting {
  import opened Selections
  import opened Alerts

  type Worktree = nat

  datatype Holder = Holder(worktree: Worktree, live: bool)

  datatype Occasion = DirectInvocation | CompletedBashCall | OpeningSession

  datatype Concern = InvokingWorktree | LiveHolderElsewhere | NoLiveHolder

  datatype Routing = Routing(occasion: Occasion, invoking: Worktree, holders: map<Id, Holder>) {

    predicate Holds(ids: seq<Id>, worktree: Worktree) {
      exists i | 0 <= i < |ids| :: ids[i] in holders && holders[ids[i]].worktree == worktree
    }

    function ConcernOf(ids: seq<Id>): Concern {
      if Holds(ids, invoking) then InvokingWorktree
      else if exists i | 0 <= i < |ids| :: ids[i] in holders && holders[ids[i]].live then LiveHolderElsewhere
      else NoLiveHolder
    }

    predicate Delivers(ids: seq<Id>) {
      match occasion
      case DirectInvocation => true
      case CompletedBashCall => ConcernOf(ids) == InvokingWorktree
      case OpeningSession => ConcernOf(ids) in {InvokingWorktree, NoLiveHolder}
    }

    function Route(alerts: seq<Alert>): seq<Alert> {
      if alerts == [] then []
      else
        var front, last := alerts[..|alerts| - 1], alerts[|alerts| - 1];
        Route(front) + if Delivers(last.Reservations()) then [last] else []
    }
  }

  /** No alert is lost: the invoking worktree's opening session delivers it, or a live holder's own
      worktree is delivered it on both hook occasions. */
  lemma EveryAlertReachesSomeone(alert: Alert, invoking: Worktree, holders: map<Id, Holder>)
    ensures
      || Routing(OpeningSession, invoking, holders).Delivers(alert.Reservations())
      || exists id | id in alert.Reservations() && id in holders ::
           && holders[id].live
           && Routing(OpeningSession, holders[id].worktree, holders).Delivers(alert.Reservations())
           && Routing(CompletedBashCall, holders[id].worktree, holders).Delivers(alert.Reservations())
  {
    var ids := alert.Reservations();
    if !Routing(OpeningSession, invoking, holders).Delivers(ids) {
      var i :| 0 <= i < |ids| && ids[i] in holders && holders[ids[i]].live;
      assert Routing(OpeningSession, holders[ids[i]].worktree, holders).Holds(ids, holders[ids[i]].worktree);
      assert Routing(CompletedBashCall, holders[ids[i]].worktree, holders).Holds(ids, holders[ids[i]].worktree);
      assert ids[i] in ids;
    }
  }

  /** Who is told on which occasion, by the holders of the named reservations alone: a completed Bash
      call tells their holders, and an opening session also tells everyone when none is held live. */
  lemma DeliveredExactly(invoking: Worktree, holders: map<Id, Holder>, ids: seq<Id>)
    ensures Routing(DirectInvocation, invoking, holders).Delivers(ids)
    ensures Routing(CompletedBashCall, invoking, holders).Delivers(ids) <==>
            exists id | id in ids :: id in holders && holders[id].worktree == invoking
    ensures Routing(OpeningSession, invoking, holders).Delivers(ids) <==>
            || (exists id | id in ids :: id in holders && holders[id].worktree == invoking)
            || (forall id | id in ids && id in holders :: !holders[id].live)
  {
    if id :| id in ids && id in holders && holders[id].worktree == invoking {
      var i :| 0 <= i < |ids| && ids[i] == id;
      assert Routing(CompletedBashCall, invoking, holders).Holds(ids, invoking);
      assert Routing(OpeningSession, invoking, holders).Holds(ids, invoking);
    }
    if id :| id in ids && id in holders && holders[id].live {
      var i :| 0 <= i < |ids| && ids[i] == id;
      assert ids[i] in holders && holders[ids[i]].live;
    }
  }

  /** Each reservation an alert is about: every one that waits on an uncovered target, or its own. */
  predicate IsAbout(alert: Alert, id: Id) {
    match alert
    case TargetUncovered(waiting) => id in waiting
    case _ => alert.id == id
  }

  /** An alert is told to the holder of each reservation it is about, live or not, and on both hook
      occasions. */
  lemma EveryHolderIsTold(alert: Alert, id: Id, holders: map<Id, Holder>)
    requires IsAbout(alert, id) && id in holders
    ensures Routing(CompletedBashCall, holders[id].worktree, holders).Delivers(alert.Reservations())
    ensures Routing(OpeningSession, holders[id].worktree, holders).Delivers(alert.Reservations())
  {
    assert id in alert.Reservations();
    DeliveredExactly(holders[id].worktree, holders, alert.Reservations());
  }

  /** A worktree's Bash occasion delivers no more than its opening session, and that no more than a
      direct invocation; delivery depends only on which reservations an alert names. */
  lemma DeliveriesNest(invoking: Worktree, holders: map<Id, Holder>, a: seq<Id>, b: seq<Id>)
    requires forall id :: id in a <==> id in b
    ensures Routing(CompletedBashCall, invoking, holders).Delivers(a) ==> Routing(OpeningSession, invoking, holders).Delivers(a)
    ensures Routing(DirectInvocation, invoking, holders).Delivers(a)
    ensures forall occasion :: Routing(occasion, invoking, holders).Delivers(a) <==> Routing(occasion, invoking, holders).Delivers(b)
  {
    forall occasion
      ensures Routing(occasion, invoking, holders).ConcernOf(a) == Routing(occasion, invoking, holders).ConcernOf(b)
    {
      NamesDecideConcern(Routing(occasion, invoking, holders), a, b);
      NamesDecideConcern(Routing(occasion, invoking, holders), b, a);
    }
    assert Routing(CompletedBashCall, invoking, holders).ConcernOf(a) == Routing(OpeningSession, invoking, holders).ConcernOf(a);
  }

  lemma NamesDecideConcern(routing: Routing, a: seq<Id>, b: seq<Id>)
    requires forall id | id in a :: id in b
    ensures routing.Holds(a, routing.invoking) ==> routing.Holds(b, routing.invoking)
    ensures (exists i | 0 <= i < |a| :: a[i] in routing.holders && routing.holders[a[i]].live) ==>
              exists j | 0 <= j < |b| :: b[j] in routing.holders && routing.holders[b[j]].live
  {
    if i :| 0 <= i < |a| && a[i] in routing.holders && routing.holders[a[i]].worktree == routing.invoking {
      assert a[i] in b;
      var j :| 0 <= j < |b| && b[j] == a[i];
    }
    if i :| 0 <= i < |a| && a[i] in routing.holders && routing.holders[a[i]].live {
      assert a[i] in b;
      var j :| 0 <= j < |b| && b[j] == a[i];
    }
  }

  /** Routing keeps exactly the delivered alerts, in their order. */
  lemma {:induction false} RouteKeepsOrder(routing: Routing, alerts: seq<Alert>) returns (positions: seq<nat>)
    ensures Picks(alerts, positions, routing.Route(alerts))
    ensures forall n: nat :: n in positions <==> n < |alerts| && routing.Delivers(alerts[n].Reservations())
  {
    hide Routing.Delivers, Alert.Reservations;
    positions := [];
    if alerts != [] {
      var front, last := alerts[..|alerts| - 1], alerts[|alerts| - 1];
      var earlier := RouteKeepsOrder(routing, front);
      assert alerts == front + [last];
      PicksLonger(front, earlier, routing.Route(front), last);
      positions := if routing.Delivers(last.Reservations()) then earlier + [|front|] else earlier;
      assert forall n: nat | n < |front| :: alerts[n] == front[n];
    }
  }
}
