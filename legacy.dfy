/**
 * The older revision of the engine, utils/FsmState.java.
 *
 * Event spaces are plain integer ids and an event is a value carrying its
 * space id and its own id.  Each state has a transition table, an entry
 * substate chosen by `setEntrySubstate`, and a cursor; a single method,
 * `performAction`, both evaluates an event and delegates it.  As in module
 * `HfsmSpec`, states are indices into an arena whose cursors are kept apart.
 * The ghost `rank` of a state bounds the nesting: an entry substate and a
 * cursor rank strictly below their owner, a transition target no higher.
 */
module Legacy {
  import opened Common

  /** An event of this revision: its space id, its id within the space, its name. */
  datatype Event = Event(name: string, spaceId: int, id: int)

  /** A state; the constructor never stores its name, so there is none here. */
  datatype LState = LState(spaceId: int, table: seq<Option<nat>>, entry: Option<nat>)

  type Cursors = seq<Option<nat>>

  ghost predicate LValidState(st: seq<LState>, rank: seq<nat>, i: nat)
    requires |rank| == |st| && i < |st|
  {
    && (st[i].entry.Some? ==> st[i].entry.value < |st| && rank[st[i].entry.value] < rank[i])
    && (forall k :: 0 <= k < |st[i].table| && st[i].table[k].Some? ==>
          st[i].table[k].value < |st| && rank[st[i].table[k].value] <= rank[i])
  }

  ghost predicate LShape(st: seq<LState>, rank: seq<nat>)
  {
    |rank| == |st| && forall i {:trigger st[i]} :: 0 <= i < |st| ==> LValidState(st, rank, i)
  }

  ghost predicate LCursorsOk(st: seq<LState>, rank: seq<nat>, cur: Cursors)
  {
    && |rank| == |st| && |cur| == |st|
    && forall i {:trigger cur[i]} :: 0 <= i < |cur| && cur[i].Some? ==> cur[i].value < |st| && rank[cur[i].value] < rank[i]
  }

  /** The chain of cursors from `s` down: the states a delegated event passes through. */
  ghost function Chain(st: seq<LState>, rank: seq<nat>, cur: Cursors, s: nat): (p: seq<nat>)
    requires LCursorsOk(st, rank, cur) && s < |st|
    ensures |p| > 0 && p[0] == s
    ensures forall i :: i in p ==> i < |st| && rank[i] <= rank[s]
    decreases rank[s]
  {
    if cur[s].None? then [s] else [s] + Chain(st, rank, cur, cur[s].value)
  }

  /** `eraseInternalState`: the chain below `s` is erased first, then the cursor of `s`. */
  ghost function Erase(st: seq<LState>, rank: seq<nat>, cur: Cursors, s: nat): (r: Cursors)
    requires LCursorsOk(st, rank, cur) && s < |st|
    ensures LCursorsOk(st, rank, r)
    decreases rank[s]
  {
    var cur1 := if cur[s].Some? then Erase(st, rank, cur, cur[s].value) else cur;
    cur1[s := None]
  }

  /** Every cursor on the chain from `s` is nulled, and no other cursor changes. */
  lemma {:induction false} EraseEffect(st: seq<LState>, rank: seq<nat>, cur: Cursors, s: nat)
    requires LCursorsOk(st, rank, cur) && s < |st|
    ensures forall i :: 0 <= i < |st| ==>
      Erase(st, rank, cur, s)[i] == if i in Chain(st, rank, cur, s) then None else cur[i]
    decreases rank[s]
  {
    if cur[s].Some? {
      EraseEffect(st, rank, cur, cur[s].value);
    }
  }

  /**
   * `performAction(info, e)` on `s`: the new cursors and either the returned
   * target or the exception thrown.  An event of the state's own space id is
   * looked up in the table (a found target erases the chain first); an id out
   * of the table's range throws.  Any other event goes to the cursor, which
   * defaults to the entry substate, and the cursor is then overwritten with
   * whatever the child returned.  An exception from below propagates before
   * that assignment.
   */
  ghost function Perform(st: seq<LState>, rank: seq<nat>, cur: Cursors, s: nat, e: Option<Event>): (r: (Cursors, Result<Option<nat>>))
    requires LShape(st, rank) && LCursorsOk(st, rank, cur) && s < |st|
    ensures LCursorsOk(st, rank, r.0)
    ensures r.1.Success? && r.1.value.Some? ==> r.1.value.value < |st| && rank[r.1.value.value] <= rank[s]
    ensures r.1.Failure? ==> r.1.error == IndexOutOfBounds
    decreases rank[s]
  {
    assert LValidState(st, rank, s);
    match e
    case None => (cur, Success(None))
    case Some(ev) =>
      if ev.spaceId == st[s].spaceId then
        if 0 <= ev.id < |st[s].table| then
          var t := st[s].table[ev.id];
          if t.Some? then (Erase(st, rank, cur, s), Success(t)) else (cur, Success(None))
        else (cur, Failure(IndexOutOfBounds))
      else
        var cur1 := if cur[s].None? && st[s].entry.Some? then cur[s := st[s].entry] else cur;
        if cur1[s].None? then (cur1, Success(None))
        else
          var d := Perform(st, rank, cur1, cur1[s].value, e);
          match d.1
          case Failure(err) => (d.0, Failure(err))
          case Success(t) => (d.0[s := t], Success(None))
  }

  /** The joystick's machine wired on this revision: host 0 (space id 0) over Idle 1, InBoundary 2, OnBoundary 3 (space id 1). */
  function JoystickStates(): seq<LState>
  {
    [ LState(0, [], Some(1)),
      LState(1, [Some(2), None, None, None], None),
      LState(1, [None, Some(1), None, Some(3)], None),
      LState(1, [None, Some(1), Some(2), None], None) ]
  }

  /**
   * On this revision a move inside the boundary while tracking (InBoundary
   * has no transition for it) nulls the host's cursor, so the next event
   * starts again from Idle: grip, move inside, reach the boundary leaves
   * the joystick at Idle instead of OnBoundary.
   */
  lemma JoystickLosesTrackingOnMove()
    ensures var st, rank := JoystickStates(), [1, 0, 0, 0];
      && LShape(st, rank) && LCursorsOk(st, rank, [None, None, None, None])
      && var p1 := Perform(st, rank, [None, None, None, None], 0, Some(Event("Grip", 1, 0)));
      && p1.0[0] == Some(2)
      && var p2 := Perform(st, rank, p1.0, 0, Some(Event("OnBoundary", 1, 2)));
      && p2.0[0] == None
      && var p3 := Perform(st, rank, p2.0, 0, Some(Event("InBoundary", 1, 3)));
      && p3.0[0] == None
  {
    JoystickStatesShape();
    GripMovesHostToInBoundary();
    MoveInsideNullsHostCursor();
    BoundaryAfterNullStaysIdle();
  }

  lemma JoystickStatesShape()
    ensures LShape(JoystickStates(), [1, 0, 0, 0]) && LCursorsOk(JoystickStates(), [1, 0, 0, 0], [None, None, None, None])
  {
    var st, rank := JoystickStates(), [1, 0, 0, 0];
    assert LValidState(st, rank, 0) && LValidState(st, rank, 1) && LValidState(st, rank, 2) && LValidState(st, rank, 3);
  }

  lemma GripMovesHostToInBoundary()
    requires LShape(JoystickStates(), [1, 0, 0, 0])
    ensures Perform(JoystickStates(), [1, 0, 0, 0], [None, None, None, None], 0, Some(Event("Grip", 1, 0))).0
      == [Some(2), None, None, None]
  {
    var st, rank := JoystickStates(), [1, 0, 0, 0];
    var cur: Cursors := [Some(1), None, None, None];
    assert Perform(st, rank, cur, 1, Some(Event("Grip", 1, 0))) == (Erase(st, rank, cur, 1), Success(Some(2)));
    assert Erase(st, rank, cur, 1) == cur;
  }

  lemma MoveInsideNullsHostCursor()
    requires LShape(JoystickStates(), [1, 0, 0, 0])
    ensures LCursorsOk(JoystickStates(), [1, 0, 0, 0], [Some(2), None, None, None])
    ensures Perform(JoystickStates(), [1, 0, 0, 0], [Some(2), None, None, None], 0, Some(Event("OnBoundary", 1, 2))).0
      == [None, None, None, None]
  {
    var st, rank := JoystickStates(), [1, 0, 0, 0];
    var cur: Cursors := [Some(2), None, None, None];
    assert Perform(st, rank, cur, 2, Some(Event("OnBoundary", 1, 2))) == (cur, Success(None));
  }

  lemma BoundaryAfterNullStaysIdle()
    requires LShape(JoystickStates(), [1, 0, 0, 0])
    ensures Perform(JoystickStates(), [1, 0, 0, 0], [None, None, None, None], 0, Some(Event("InBoundary", 1, 3))).0
      == [None, None, None, None]
  {
    var st, rank := JoystickStates(), [1, 0, 0, 0];
    var cur: Cursors := [Some(1), None, None, None];
    assert Perform(st, rank, cur, 1, Some(Event("InBoundary", 1, 3))) == (cur, Success(None));
  }

  /** The state the event was evaluated by first. */
  lemma SameSpaceEventIsLookedUp(st: seq<LState>, rank: seq<nat>, cur: Cursors, s: nat, ev: Event)
    requires LShape(st, rank) && LCursorsOk(st, rank, cur) && s < |st| && ev.spaceId == st[s].spaceId
    ensures !(0 <= ev.id < |st[s].table|) ==> Perform(st, rank, cur, s, Some(ev)) == (cur, Failure(IndexOutOfBounds))
    ensures 0 <= ev.id < |st[s].table| ==>
      && Perform(st, rank, cur, s, Some(ev)).1 == Success(st[s].table[ev.id])
      && forall i :: 0 <= i < |st| ==>
           Perform(st, rank, cur, s, Some(ev)).0[i] ==
             if st[s].table[ev.id].Some? && i in Chain(st, rank, cur, s) then None else cur[i]
  {
    EraseEffect(st, rank, cur, s);
  }

  /**
   * An event of another space id never makes `s` transition, and the cursor
   * of `s` ends up as exactly what its child returned, null included.
   */
  lemma DelegationOverwritesCursor(st: seq<LState>, rank: seq<nat>, cur: Cursors, s: nat, ev: Event)
    requires LShape(st, rank) && LCursorsOk(st, rank, cur) && s < |st| && ev.spaceId != st[s].spaceId
    requires cur[s].Some? || st[s].entry.Some?
    ensures var c := if cur[s].Some? then cur[s] else st[s].entry;
      var cur1 := cur[s := c];
      && LCursorsOk(st, rank, cur1) && c.value < |st|
      && var d := Perform(st, rank, cur1, c.value, Some(ev));
      Perform(st, rank, cur, s, Some(ev)) ==
        if d.1.Success? then (d.0[s := d.1.value], Success(None)) else d
  {
    assert LValidState(st, rank, s);
    var c := if cur[s].Some? then cur[s] else st[s].entry;
    if cur[s].Some? {
      assert cur[s := c] == cur;
    }
  }

  class LegacyMachine {
    var states: seq<LState>
    var cursors: Cursors
    ghost var rank: seq<nat>

    ghost predicate Valid()
      reads this
    {
      LShape(states, rank) && LCursorsOk(states, rank, cursors)
    }

    constructor()
      ensures Valid() && states == [] && cursors == []
    {
      states, cursors, rank := [], [], [];
    }

    /**
     * The constructor of this revision: an empty table of `evSpaceSize` slots
     * and no entry substate.  The name argument shadows the field and is
     * dropped.  A negative size is refused as Java refuses the allocation.
     */
    method NewState(name: string, evSpaceId: int, evSpaceSize: int, ghost r: nat) returns (res: Result<nat>)
      requires Valid()
      modifies this
      ensures Valid()
      ensures res.Failure? <==> evSpaceSize < 0
      ensures res.Failure? ==> res.error == NegativeArraySize && states == old(states) && cursors == old(cursors)
      ensures res.Success? ==>
        && res.value == |old(states)|
        && states == old(states) + [LState(evSpaceId, seq(evSpaceSize, _ => None), None)]
        && cursors == old(cursors) + [None]
        && GetEvSpaceId(res.value) == evSpaceId
    {
      if evSpaceSize < 0 {
        return Failure(NegativeArraySize);
      }
      var st0 := states;
      states := states + [LState(evSpaceId, seq(evSpaceSize, _ => None), None)];
      cursors := cursors + [None];
      rank := rank + [r];
      forall i | 0 <= i < |states|
        ensures LValidState(states, rank, i)
      {
        if i < |st0| {
          assert LValidState(st0, old(rank), i);
        }
      }
      res := Success(|st0|);
    }

    /** `setEntrySubstate`: overwrites the entry substate, whatever it was before. */
    method SetEntrySubstate(s: nat, child: Option<nat>)
      requires Valid() && s < |states|
      requires child.Some? ==> child.value < |states| && rank[child.value] < rank[s]
      modifies this`states
      ensures Valid()
      ensures states == old(states)[s := old(states)[s].(entry := child)]
    {
      var st0 := states;
      states := states[s := states[s].(entry := child)];
      forall i | 0 <= i < |states|
        ensures LValidState(states, rank, i)
      {
        assert LValidState(st0, rank, i);
      }
    }

    /**
     * `addTransitionState(target, e)` on `s`: an event of another space id is
     * an illegal argument, an id outside the table is out of bounds, and in
     * both cases nothing changes; otherwise the table slot of `e` becomes `target`.
     */
    method AddTransitionState(s: nat, target: Option<nat>, e: Event) returns (r: Outcome)
      requires Valid() && s < |states|
      requires target.Some? ==> target.value < |states| && rank[target.value] <= rank[s]
      modifies this`states
      ensures Valid()
      ensures r.Pass? <==> e.spaceId == old(states)[s].spaceId && 0 <= e.id < |old(states)[s].table|
      ensures r.Fail? ==>
        && states == old(states)
        && r.error == (if e.spaceId != old(states)[s].spaceId then IllegalArgument else IndexOutOfBounds)
      ensures r.Pass? ==> states == old(states)[s := old(states)[s].(table := old(states)[s].table[e.id := target])]
    {
      if e.spaceId == states[s].spaceId {
        var evId := e.id;
        if 0 <= evId < |states[s].table| {
          var st0 := states;
          states := states[s := states[s].(table := states[s].table[evId := target])];
          forall i | 0 <= i < |states|
            ensures LValidState(states, rank, i)
          {
            assert LValidState(st0, rank, i);
          }
          return Pass;
        } else {
          return Fail(IndexOutOfBounds);
        }
      } else {
        return Fail(IllegalArgument);
      }
    }

    /** `performAction(info, e)` on `s`, as `Perform` describes it. */
    method PerformAction(s: nat, e: Option<Event>) returns (r: Result<Option<nat>>)
      requires Valid() && s < |states|
      modifies this`cursors
      ensures Valid()
      ensures (cursors, r) == Perform(states, rank, old(cursors), s, e)
      decreases rank[s]
    {
      assert LValidState(states, rank, s);
      if e.None? {
        return Success(None);
      }
      var ev := e.value;
      if ev.spaceId == states[s].spaceId {
        var evId := ev.id;
        if 0 <= evId < |states[s].table| {
          var newState := states[s].table[evId];
          if newState.Some? {
            EraseInternalState(s);
          }
          return Success(newState);
        } else {
          return Failure(IndexOutOfBounds);
        }
      } else {
        if cursors[s].None? && states[s].entry.Some? {
          cursors := cursors[s := states[s].entry];
        }
        if cursors[s].Some? {
          var d := PerformAction(cursors[s].value, e);
          if d.Failure? {
            return Failure(d.error);
          }
          cursors := cursors[s := d.value];
        }
        return Success(None);
      }
    }

    /** `eraseInternalState` on `s`, as `Erase` describes it. */
    method EraseInternalState(s: nat)
      requires Valid() && s < |states|
      modifies this`cursors
      ensures Valid()
      ensures cursors == Erase(states, rank, old(cursors), s)
      decreases rank[s]
    {
      if cursors[s].Some? {
        EraseInternalState(cursors[s].value);
      }
      cursors := cursors[s := None];
    }

    /** `getEvSpaceId`: the space id the state was built with. */
    function GetEvSpaceId(s: nat): int
      requires s < |states|
      reads this
    {
      states[s].spaceId
    }
  }
}
