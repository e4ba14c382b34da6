/** The route a protocol message carries: every node from its origin on, and how far it got. */
module SourceRoutes {
  import opened NodeIds

  datatype Option<T> = None | Some(value: T)

  function Reversed<T>(s: seq<T>): (r: seq<T>)
    ensures |r| == |s|
    ensures forall i :: 0 <= i < |s| ==> r[i] == s[|s| - 1 - i]
  {
    if s == [] then [] else Reversed(s[1..]) + [s[0]]
  }

  /** The value of a source route. */
  datatype SourceRoute = SourceRoute(ids: seq<NodeId>, progress: nat) {

    /** At least two nodes, progress in [1, len - 1]. */
    predicate Valid() {
      |ids| >= 2 && 1 <= progress < |ids|
    }

    function Origin(): NodeId
      requires Valid()
    {
      ids[0]
    }

    function Destination(): NodeId
      requires Valid()
    {
      ids[|ids| - 1]
    }

    function CurrentHop(): NodeId
      requires Valid()
    {
      ids[progress]
    }

    function PrevHop(): NodeId
      requires Valid()
    {
      ids[progress - 1]
    }

    function NextHop(): Option<NodeId>
      requires Valid()
    {
      if progress + 1 < |ids| then Some(ids[progress + 1]) else None
    }

    /** The nodes visited so far, the current one excluded. */
    function TraveledPath(): seq<NodeId>
      requires Valid()
    {
      ids[..progress]
    }

    /** The nodes still ahead, the current one included. */
    function RemainingPath(): seq<NodeId>
      requires Valid()
    {
      ids[progress..]
    }

    function Advanced(): SourceRoute
      requires Valid()
    {
      if progress < |ids| - 1 then SourceRoute(ids, progress + 1) else this
    }

    function Extended(path: seq<NodeId>): SourceRoute {
      SourceRoute(ids + path, progress)
    }

    /** The way back: cut behind the current hop, turned around. */
    function TurnedAround(): SourceRoute
      requires Valid()
    {
      SourceRoute(Reversed(ids[..progress + 1]), 1)
    }
  }

  function NewRoute(source: NodeId, path: seq<NodeId>): SourceRoute {
    SourceRoute([source] + path, 1)
  }

  /** A source route changed in place by the use cases. */
  class SourceRouteCell {
    var ids: seq<NodeId>
    var progress: nat

    ghost predicate Valid()
      reads this
    {
      View().Valid()
    }

    ghost function View(): SourceRoute
      reads this
    {
      SourceRoute(ids, progress)
    }

    constructor New(source: NodeId, path: seq<NodeId>)
      requires path != []
      ensures Valid() && View() == NewRoute(source, path)
    {
      ids, progress := [source] + path, 1;
    }

    /** The answer to a request travels this route. */
    constructor FromReversed(route: SourceRouteCell)
      requires route.Valid()
      ensures Valid() && View() == route.View().TurnedAround()
    {
      ids, progress := Reversed(route.ids[..route.progress + 1]), 1;
    }

    method Advance()
      requires Valid()
      modifies this
      ensures Valid() && View() == old(View()).Advanced()
    {
      if progress < |ids| - 1 {
        progress := progress + 1;
      }
    }

    method Extend(path: seq<NodeId>)
      modifies this
      ensures View() == old(View()).Extended(path)
    {
      ids := ids + path;
    }

    /** Overlay forwarding in place: append the way to the chosen contact, step onto it. */
    method ExtendAndAdvance(path: seq<NodeId>)
      requires Valid() && path != []
      modifies this
      ensures Valid() && View() == old(View()).Extended(path).Advanced()
      ensures old(View()).NextHop() == None ==> View().CurrentHop() == path[0]
    {
      Extend(path);
      Advance();
    }
  }

  lemma {:induction false} ReversedTwice<T>(s: seq<T>)
    ensures Reversed(Reversed(s)) == s
  {
  }

  /** Going back over the way back, once it is finished, gives the travelled part again. */
  lemma TurningAroundTwice(route: SourceRoute)
    requires route.Valid()
    ensures var back := route.TurnedAround();
            && back.Valid()
            && SourceRoute(back.ids, |back.ids| - 1).TurnedAround().ids == route.ids[..route.progress + 1]
            && back.Destination() == route.Origin()
            && [back.Origin()] + Reversed(route.TraveledPath()) == back.ids
            && back.Origin() == route.CurrentHop()
            && back.CurrentHop() == route.PrevHop()
  {
    var back := route.TurnedAround();
    assert back.ids[..|back.ids|] == back.ids;
    ReversedTwice(route.ids[..route.progress + 1]);
  }
}
