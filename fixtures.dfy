/** The match history (a stack, for undo) and the match schedule (a queue of fixtures).
    Both hold match ids; the matches themselves live in the league's match table. */
module Fixtures {
  import opened Wrappers

  /** `MatchHistory`: `items` runs from the bottom of the stack to its top. */
  class MatchHistory {
    var items: seq<nat>

    constructor ()
      ensures items == []
    {
      items := [];
    }

    /** `addMatch`: push. */
    method AddMatch(id: nat)
      modifies this
      ensures items == old(items) + [id]
    {
      items := items + [id];
    }

    /** `undoLastMatch`: pop the most recent match, or do nothing when the stack is empty. */
    method UndoLastMatch()
      modifies this
      ensures old(items) == [] ==> items == []
      ensures old(items) != [] ==> items == old(items)[..|old(items)| - 1]
    {
      if items != [] {
        items := items[..|items| - 1];
      }
    }

    method IsEmpty() returns (empty: bool)
      ensures empty <==> items == []
    {
      empty := items == [];
    }
  }

  /** `MatchSchedule`: `items` runs from the front of the queue to its back. */
  class MatchSchedule {
    var items: seq<nat>

    constructor ()
      ensures items == []
    {
      items := [];
    }

    /** `scheduleMatch`: enqueue at the back. */
    method ScheduleMatch(id: nat)
      modifies this
      ensures items == old(items) + [id]
    {
      items := items + [id];
    }

    /** `playNextMatch`: dequeue the earliest fixture, or report none (the null pointer) and
        leave the queue as it is. */
    method PlayNextMatch() returns (next: Option<nat>)
      modifies this
      ensures old(items) == [] ==> next == None && unchanged(this)
      ensures old(items) != [] ==> next == Some(old(items)[0]) && items == old(items)[1..]
    {
      if items == [] {
        next := None;
      } else {
        next := Some(items[0]);
        items := items[1..];
      }
    }

    method IsEmpty() returns (empty: bool)
      ensures empty <==> items == []
    {
      empty := items == [];
    }
  }
}
