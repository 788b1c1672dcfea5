/**
 * The engine of fsm/FsmState.java and fsm/FsmStateOrtho.java as a class.
 *
 * A `Machine` owns every state of one nested machine: `states` holds what the
 * Java objects keep in their set-up fields, `cursors` their `mCurrentState`
 * fields, and `trace` records the states whose action ran, in order.  A state
 * is addressed by its index.  Each method is proved to do what the functions
 * of module `HfsmSpec` describe.
 */
module Hfsm {
  import opened Common
  import opened Events
  import opened HfsmSpec

  class Machine {
    var states: seq<State>
    var cursors: Cursors
    var trace: seq<nat>

    ghost predicate Valid()
      reads this`states, this`cursors
    {
      Shape(states) && CursorsOk(states, cursors)
    }

    constructor()
      ensures Valid() && states == [] && cursors == [] && trace == []
    {
      states := [];
      cursors := [];
      trace := [];
    }

    /**
     * The `FsmState` constructor (or the `FsmStateOrtho` one when `ortho`):
     * a table with one empty slot per event of the space, and an empty inner
     * array of `intSpSize` slots.  A negative size is refused as Java refuses
     * the array allocation.
     */
    method NewState(name: string, space: EventSpace, intSpSize: int, ortho: bool) returns (r: Result<nat>)
      requires Valid() && space.Valid()
      modifies this`states, this`cursors
      ensures Valid()
      ensures r.Failure? <==> intSpSize < 0
      ensures r.Failure? ==> r.error == NegativeArraySize && states == old(states) && cursors == old(cursors)
      ensures r.Success? ==>
        && r.value == |old(states)|
        && states == old(states) + [State(name, space, ortho, Nulls(space.size), Nulls(intSpSize), 0)]
        && cursors == old(cursors) + [None]
    {
      if intSpSize < 0 {
        return Failure(NegativeArraySize);
      }
      var x := State(name, space, ortho, Nulls(space.size), Nulls(intSpSize), 0);
      var st0 := states;
      states := states + [x];
      cursors := cursors + [None];
      forall i | 0 <= i < |states|
        ensures ValidState(states, i) && CursorOk(states, cursors, i)
      {
        if i < |st0| {
          assert ValidState(st0, i) && CursorOk(st0, old(cursors), i);
          assert states[i] == st0[i];
        }
      }
      r := Success(|st0|);
    }

    /**
     * `bindEventToTransition(target, e)` on `s`: succeeds exactly when the
     * target listens to the same space as `s` and `e` was minted by it, and
     * then writes `target` into the table slot of `e`; otherwise it fails with
     * a space mismatch and changes nothing.
     */
    method BindEventToTransition(s: nat, target: nat, e: FsmEvent) returns (r: Outcome)
      requires Valid() && s < |states| && target < |states| && states[s].space.Valid()
      modifies this`states
      ensures Valid()
      ensures r.Pass? <==> states[target].space == states[s].space && e in states[s].space.events
      ensures r.Fail? ==> r.error == EventSpaceMismatch && states == old(states)
      ensures r.Pass? ==>
        && 0 <= e.id < |old(states)[s].table|
        && states == old(states)[s := old(states)[s].(table := old(states)[s].table[e.id := Some(target)])]
    {
      var x := states[s];
      if states[target].space == x.space {
        if e.IsMemberOf(x.space) {
          assert ValidState(states, s);
          var st0 := states;
          states := states[s := x.(table := x.table[e.id := Some(target)])];
          forall i | 0 <= i < |states|
            ensures ValidState(states, i) && CursorOk(states, cursors, i)
          {
            assert ValidState(st0, i) && CursorOk(st0, cursors, i);
          }
          return Pass;
        } else {
          return Fail(EventSpaceMismatch);
        }
      } else {
        return Fail(EventSpaceMismatch);
      }
    }

    /**
     * `addStateToInternalFsm(child)` on `s`: a child of the same space is a
     * conflict, a full inner array is out of bounds, and in both cases nothing
     * changes.  Otherwise the child fills the next slot and the cursor of `s`
     * goes back to the first-added inner state.
     */
    method AddStateToInternalFsm(s: nat, child: nat) returns (r: Outcome)
      requires Valid() && s < |states| && child < |states|
      requires states[child].space != states[s].space ==> Level(states, child) < Level(states, s)
      modifies this`states, this`cursors
      ensures Valid() && |states| == |old(states)|
      ensures r.Pass? <==> states[child].space != states[s].space && old(states)[s].innerIndex < |old(states)[s].inner|
      ensures r.Fail? ==>
        && states == old(states) && cursors == old(cursors)
        && r.error == (if states[child].space == states[s].space then EventSpaceConflict else IndexOutOfBounds)
      ensures r.Pass? ==>
        var x := old(states)[s];
        && states == old(states)[s := x.(inner := x.inner[x.innerIndex := Some(child)], innerIndex := x.innerIndex + 1)]
        && cursors == old(cursors)[s := Entry(states[s])]
        && Entry(states[s]) == (if x.innerIndex == 0 then Some(child) else Entry(x))
    {
      var x := states[s];
      if states[child].space != x.space {
        assert ValidState(states, s);
        if x.innerIndex < |x.inner| {
          var y := x.(inner := x.inner[x.innerIndex := Some(child)], innerIndex := x.innerIndex + 1);
          AddInnerKeepsShape(states, cursors, s, child);
          states := states[s := y];
          cursors := cursors[s := y.inner[0]];
          return Pass;
        } else {
          return Fail(IndexOutOfBounds);
        }
      } else {
        return Fail(EventSpaceConflict);
      }
    }

    /** `signalEvent(e)` on `s`, as `Signal` describes it. */
    method SignalEvent(s: nat, e: FsmEvent?) returns (t: Option<nat>)
      requires Valid() && SpacesValid(states) && s < |states|
      modifies this`cursors
      ensures Valid()
      ensures (cursors, t) == Signal(states, old(cursors), s, e)
      decreases Level(states, s), 1
    {
      assert ValidState(states, s);
      if e == null {
        return None;
      }
      if e.IsMemberOf(states[s].space) {
        assert e in states[s].space.events && states[s].space.Valid();
        t := states[s].table[e.id];
        if t.Some? {
          ResetInternalState(s);
        }
        assert (cursors, t) == Signal(states, old(cursors), s, e);
      } else {
        assert e !in states[s].space.events;
        var d := SignalEventToInternalState(s, e);
        if d.Some? {
          cursors := cursors[s := d];
          assert cursors == SetCursor(states, Delegate(states, old(cursors), s, e).0, s, d);
        }
        t := None;
      }
    }

    /** The delegation hook of either variant, as `Delegate` describes it. */
    method SignalEventToInternalState(s: nat, e: FsmEvent) returns (t: Option<nat>)
      requires Valid() && SpacesValid(states) && s < |states|
      modifies this`cursors
      ensures Valid()
      ensures (cursors, t) == Delegate(states, old(cursors), s, e)
      decreases Level(states, s), 0
    {
      DelegateeBelow(states, cursors, s);
      var x := states[s];
      if x.ortho {
        t := SignalEventToRegions(s, e);
      } else if HasInternalState(x) {
        var c := cursors[s];
        if c.None? {
          c := x.inner[0];
        }
        t := SignalEvent(c.value, e);
      } else {
        t := None;
      }
    }

    /** The orthogonal override: the first non-null region gets the event, and its answer is returned. */
    method SignalEventToRegions(s: nat, e: FsmEvent) returns (t: Option<nat>)
      requires Valid() && SpacesValid(states) && s < |states| && states[s].ortho
      modifies this`cursors
      ensures Valid()
      ensures (cursors, t) == Delegate(states, old(cursors), s, e)
      decreases Level(states, s), 0, 0
    {
      DelegateeBelow(states, cursors, s);
      var slots := states[s].inner;
      if |slots| > 0 {
        var k := 0;
        while k < |slots|
          invariant 0 <= k <= |slots|
          invariant forall j :: 0 <= j < k ==> slots[j].None?
        {
          if slots[k].Some? {
            FirstRegionAt(slots, k);
            t := SignalEvent(slots[k].value, e);
            return;
          }
          k := k + 1;
        }
      }
      t := None;
    }

    /** `resetInternalState` on `s`, as `Reset` describes it. */
    method ResetInternalState(s: nat)
      requires Valid() && s < |states|
      modifies this`cursors
      ensures Valid()
      ensures cursors == Reset(states, old(cursors), s)
      decreases Level(states, s), 0
    {
      assert ValidState(states, s);
      var x := states[s];
      if HasInternalState(x) {
        cursors := SetCursor(states, cursors, s, x.inner[0]);
        ghost var cur1 := cursors;
        var k := 0;
        while k < x.innerIndex
          invariant 0 <= k <= x.innerIndex
          invariant Valid()
          invariant cursors == ResetSlots(states, cur1, s, k)
        {
          ResetInternalState(x.inner[k].value);
          k := k + 1;
        }
      }
    }

    /**
     * `performAction` on `s`: the inner state's (or every region's) actions
     * first, then the action of `s` itself, recorded as `s` on the trace.
     */
    method PerformAction(s: nat)
      requires Valid() && s < |states|
      modifies this`trace
      ensures trace == old(trace) + PerformTrace(states, cursors, s)
      decreases Level(states, s), 2
    {
      PerformActionOfInternalState(s);
      trace := trace + [s];
    }

    /** The action hook of either variant. */
    method PerformActionOfInternalState(s: nat)
      requires Valid() && s < |states|
      modifies this`trace
      ensures trace + [s] == old(trace) + PerformTrace(states, cursors, s)
      decreases Level(states, s), 1
    {
      assert ValidState(states, s) && CursorOk(states, cursors, s);
      var x := states[s];
      if x.ortho {
        PerformActionOfRegions(s);
      } else if HasInternalState(x) {
        var c := cursors[s];
        if c.None? {
          c := x.inner[0];
        }
        PerformAction(c.value);
      }
    }
  

    /** The orthogonal override: every non-null region acts, in array order. */
    method PerformActionOfRegions(s: nat)
      requires Valid() && s < |states| && states[s].ortho
      modifies this`trace
      ensures trace == old(trace) + RegionsTrace(states, cursors, s, |states[s].inner|)
      decreases Level(states, s), 1, 0
    {
      assert ValidState(states, s);
      var slots := states[s].inner;
      var k := 0;
      while k < |slots|
        invariant 0 <= k <= |slots|
        invariant trace == old(trace) + RegionsTrace(states, cursors, s, k)
      {
        PerformActionOfSlot(s, k);
        k := k + 1;
      }
    }

    /** The action of the region in slot `k` of `s`, if the slot holds one. */
    method PerformActionOfSlot(s: nat, k: nat)
      requires Valid() && s < |states| && k < |states[s].inner|
      modifies this`trace
      ensures trace == old(trace) + SlotTrace(states, cursors, s, k)
      decreases Level(states, s), 0
    {
      assert ValidState(states, s);
      var slot := states[s].inner[k];
      if slot.Some? {
        PerformAction(slot.value);
      }
    }
  }
}
