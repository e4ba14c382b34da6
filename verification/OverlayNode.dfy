/** The use cases that move a message along, working in place on its source route and on
    the output queue of the runtime. */
module OverlayNode {
  import opened NodeIds
  import opened Routing
  import opened SourceRoutes
  import opened Overlay
  import opened PathWriters

  class MessageHandler {
    const root: NodeId
    var output: seq<Message>

    constructor (root: NodeId)
      ensures this.root == root && output == []
    {
      this.root, output := root, [];
    }

    method SendMessage(local: Local, body: Body, route: SourceRouteCell)
      requires route.Valid()
      modifies this
      ensures output == old(output) + SentBy(Emit(root, local, Message(body, route.View())))
    {
      var current := route.ids[route.progress];
      if current == root || current in local.neighbors {
        output := output + [Message(body, SourceRoute(route.ids, route.progress))];
      }
    }

    /** The whole handling of one message; ok is false when handling panics. */
    method HandleMessage(local: Local, body: Body, route: SourceRouteCell) returns (ok: bool)
      requires route.Valid() && local.g >= 1
      requires forall i :: 0 <= i < |local.closest| ==> local.closest[i].contact.path != []
      modifies this, route
      ensures var outcome := Process(root, local, Message(body, old(route.View())));
              && output == old(output) + SentBy(outcome)
              && ok == !outcome.Panicked?
    {
      ok := true;
      if body.PathRequest? {
        var hopsLeft := |route.ids| - route.progress;
        ok := hopsLeft > VICINITY_RADIUS;
        if hopsLeft - 1 <= VICINITY_RADIUS { return; }
      }
      if route.ids[route.progress] != root { return; }
      var prev := route.ids[route.progress - 1];
      if prev !in local.entryNeighbors { return; }
      if local.ssn.Reset? { return false; }
      if local.ssn.Value? && prev == root { return; }

      if route.progress + 1 < |route.ids| {
        ok := HandleForwarding(local, body, route);
      } else if body.Request? {
        ok := HandleRequest(local, body, route);
      }
    }

    method HandleForwarding(local: Local, body: Body, route: SourceRouteCell) returns (ok: bool)
      requires route.Valid() && route.View().NextHop().Some?
      modifies this, route
      ensures var m := Message(body, old(route.View()));
              var outcome := if m.route.NextHop().value !in local.neighbors then NextHopFailed(root, local, m)
                             else Emit(root, local, Message(body, m.route.Advanced()));
              && output == old(output) + SentBy(outcome)
              && ok == !outcome.Panicked?
    {
      ok := true;
      if route.ids[route.progress + 1] !in local.neighbors {
        if body.Notice? {
          ok := !body.diagnostic;
        } else {
          var back := new SourceRouteCell.FromReversed(route);
          SendMessage(local, Failure, back);
        }
      } else {
        route.Advance();
        SendMessage(local, body, route);
      }
    }

    method HandleRequest(local: Local, body: Body, route: SourceRouteCell) returns (ok: bool)
      requires body.Request? && route.Valid() && local.g >= 1
      requires forall i :: 0 <= i < |local.closest| ==> local.closest[i].contact.path != []
      modifies this, route
      ensures var outcome := Handle(root, local, Message(body, old(route.View())));
              && output == old(output) + SentBy(outcome)
              && ok == !outcome.Panicked?
    {
      var answer, hop := Response, Root;
      match body.kind {
      case Store(age) =>
        if body.target == root && local.storable && age.Some? { return age.value <= local.now; }
        if body.target != root {
          if NextHopPanics(root, local, body.target) { return false; }
          hop := NextHop(root, body.target, local.closest, local.g);
          answer := Failure;
        }
      case Fetch =>
        if !local.stored && body.target != root {
          if NextHopPanics(root, local, body.target) { return false; }
          hop := NextHop(root, body.target, local.closest, local.g);
        }
      case FindNode(exact) =>
        if route.ids[|route.ids| - 1] != root { return true; }
        if body.target != root {
          hop := FindNodeHop(root, route.ids[0], body.target, local.closest, local.g);
          answer := if exact then Failure else Response;
        }
      }

      ok := !hop.BadGrouping?;
      if hop.Via? {
        route.ExtendAndAdvance(hop.contact.path);
        SendMessage(local, body, route);
      } else if hop.Root? {
        var back := new SourceRouteCell.FromReversed(route);
        SendMessage(local, answer, back);
      }
    }
  }

  /** The message put on the output queue, if any. */
  function SentBy(outcome: Outcome): seq<Message> {
    if outcome.Sent? then [outcome.message] else []
  }
}
