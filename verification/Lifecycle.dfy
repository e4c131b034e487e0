/** Alive/dead transitions of panes. */
module Lifecycle {
  import opened Wrappers

  datatype LifecycleEvent = Appeared | Reappeared | BecameDead | Unchanged

  class PaneLifecycle {
    /** Pane id to "is dead". */
    var seen: map<string, bool>

    constructor ()
      ensures seen == map[]
    {
      seen := map[];
    }

    /** Records the observation. The two resetting events are exactly the flips of a known flag. */
    method Observe(paneId: string, dead: bool) returns (ev: LifecycleEvent)
      modifies this
      ensures seen == old(seen)[paneId := dead]
      ensures ev == Appeared <==> paneId !in old(seen)
      ensures ev == Reappeared <==> paneId in old(seen) && old(seen)[paneId] && !dead
      ensures ev == BecameDead <==> paneId in old(seen) && !old(seen)[paneId] && dead
    {
      var prev := if paneId in seen then Some(seen[paneId]) else None;
      seen := seen[paneId := dead];
      match prev
      case None => ev := Appeared;
      case Some(prevDead) =>
        ev := if prevDead && !dead then Reappeared else if !prevDead && dead then BecameDead else Unchanged;
    }

    /** A pane gone from the listing counts as dead, so that its return is a `Reappeared`. */
    method Forget(paneId: string) returns (known: bool)
      modifies this
      ensures known <==> paneId in old(seen)
      ensures seen == if known then old(seen)[paneId := true] else old(seen)
    {
      known := paneId in seen;
      if known {
        seen := seen[paneId := true];
      }
    }
  }
}
