/**
 * Two methods of fsm/FsmState.java as written, next to the corrected
 * definitions in `HfsmSpec` that the engine model uses.
 *
 * `hasInternalState` tests the length of the inner array rather than whether
 * an inner state was added, and `resetInternalState` visits every slot of the
 * array, added or not.  A null dereference is `NullPointer`; a reset that
 * throws also returns the cursors it had already written.
 */
module HfsmAsWritten {
  import opened Common
  import opened Events
  import opened HfsmSpec

  /** `hasInternalState` as written: the inner array has a slot. */
  predicate HasInternalStateAsWritten(x: State)
  {
    |x.inner| > 0
  }

  /**
   * The state `signalEventToInternalState` and `performActionOfInternalState`
   * of the single-region variant call as written: the cursor, or slot 0 when
   * the cursor is null, once the array has a slot.  Calling a method on a
   * null slot fails.
   */
  function ActiveChildAsWritten(x: State, c: Option<nat>): Result<Option<nat>>
  {
    if !HasInternalStateAsWritten(x) then Success(None)
    else
      var cache := if c.Some? then c else x.inner[0];
      if cache.None? then Failure(NullPointer) else Success(cache)
  }

  /**
   * The state a delegated event goes to as written, in either variant.  The
   * orthogonal hook shares the length test but skips null slots, so it never
   * dereferences null.
   */
  function DelegateeAsWritten(x: State, c: Option<nat>): Result<Option<nat>>
  {
    if x.ortho then Success(if HasInternalStateAsWritten(x) then FirstRegion(x.inner) else None)
    else ActiveChildAsWritten(x, c)
  }

  /**
   * As written, delegation fails exactly for a single-region state given
   * inner capacity but no inner state yet; in every other case, orthogonal
   * states included, it picks the state the corrected `Delegatee` picks.
   */
  lemma ActiveChildAsWrittenFailsWithoutInnerState(st: seq<State>, cur: Cursors, s: nat)
    requires Shape(st) && CursorsOk(st, cur) && s < |st|
    ensures DelegateeAsWritten(st[s], cur[s]).Failure? <==>
      !st[s].ortho && |st[s].inner| > 0 && st[s].innerIndex == 0
    ensures DelegateeAsWritten(st[s], cur[s]).Failure? ==> DelegateeAsWritten(st[s], cur[s]).error == NullPointer
    ensures DelegateeAsWritten(st[s], cur[s]).Success? ==>
      DelegateeAsWritten(st[s], cur[s]).value == Delegatee(st[s], cur[s])
  {
    assert ValidState(st, s) && CursorOk(st, cur, s);
  }

  /**
   * A host built with one inner slot and no inner state added yet fails on
   * delegation; the orthogonal variant of the same host delegates nowhere.
   */
  lemma EmptyHostDereferencesNull(sp: EventSpace)
    ensures var x := State("host", sp, false, [], [None], 0);
      DelegateeAsWritten(x, None) == Failure(NullPointer) && Delegatee(x, None) == None
    ensures var y := State("host", sp, true, [], [None], 0);
      DelegateeAsWritten(y, None) == Success(None) && Delegatee(y, None) == None
  {
  }

  /**
   * `resetInternalState` as written: the cursor goes to slot 0, then every
   * slot of the array is reset, null or not.  The result is the cursors as
   * they stand when the method returns or throws, and whether it threw.
   */
  function ResetAsWritten(st: seq<State>, cur: Cursors, s: nat): (r: (Cursors, Outcome))
    requires Shape(st) && CursorsOk(st, cur) && s < |st|
    ensures CursorsOk(st, r.0)
    ensures r.1.Fail? ==> r.1.error == NullPointer
    decreases Level(st, s), 1, 0
  {
    assert ValidState(st, s);
    if !HasInternalStateAsWritten(st[s]) then (cur, Pass)
    else ResetAllSlotsAsWritten(st, SetCursor(st, cur, s, st[s].inner[0]), s, |st[s].inner|)
  }

  /** The loop of `resetInternalState` as written, over the first `k` slots; it stops at the first throw. */
  function ResetAllSlotsAsWritten(st: seq<State>, cur: Cursors, s: nat, k: nat): (r: (Cursors, Outcome))
    requires Shape(st) && CursorsOk(st, cur) && s < |st| && k <= |st[s].inner|
    ensures CursorsOk(st, r.0)
    ensures r.1.Fail? ==> r.1.error == NullPointer
    decreases Level(st, s), 0, k
  {
    assert ValidState(st, s);
    if k == 0 then (cur, Pass)
    else
      var prev := ResetAllSlotsAsWritten(st, cur, s, k - 1);
      if prev.1.Fail? then prev
      else if st[s].inner[k - 1].None? then (prev.0, Fail(NullPointer))
      else ResetAsWritten(st, prev.0, st[s].inner[k - 1].value)
  }

  /** Every state of the subtree of `s` has a full inner array. */
  ghost predicate FullBelow(st: seq<State>, s: nat)
    requires Shape(st) && s < |st|
    decreases Level(st, s)
  {
    assert ValidState(st, s);
    && st[s].innerIndex == |st[s].inner|
    && forall k :: 0 <= k < st[s].innerIndex ==> FullBelow(st, st[s].inner[k].value)
  }

  /** The subtrees of the first `k` inner states of `s` have full inner arrays. */
  ghost predicate ChildrenFull(st: seq<State>, s: nat, k: nat)
    requires Shape(st) && s < |st| && k <= st[s].innerIndex
  {
    assert ValidState(st, s);
    forall j :: 0 <= j < k ==> FullBelow(st, st[s].inner[j].value)
  }

  /**
   * A reset as written throws on any state whose inner array is not full.
   * When the subtrees of the added inner states are full, the throw comes at
   * the first null slot of the state's own array, after the corrected reset
   * has been done in full: the cursors it leaves are those of `Reset`.
   */
  lemma ResetAsWrittenFailsOnPartialArray(st: seq<State>, cur: Cursors, s: nat)
    requires Shape(st) && CursorsOk(st, cur) && s < |st|
    requires st[s].innerIndex < |st[s].inner|
    ensures ResetAsWritten(st, cur, s).1 == Fail(NullPointer)
    ensures ChildrenFull(st, s, st[s].innerIndex) ==> ResetAsWritten(st, cur, s).0 == Reset(st, cur, s)
  {
    assert ValidState(st, s) && CursorOk(st, cur, s);
    var cur0 := SetCursor(st, cur, s, st[s].inner[0]);
    ResetSlotsPastIndexFail(st, cur0, s, |st[s].inner|);
    if ChildrenFull(st, s, st[s].innerIndex) {
      ResetSlotsAgreeWhenFull(st, cur0, s, st[s].innerIndex);
      if st[s].innerIndex == 0 {
        assert cur0 == cur;
      }
    }
  }

  /** Past the last added inner state the loop throws, keeping the cursors of the added slots' resets. */
  lemma {:induction false} ResetSlotsPastIndexFail(st: seq<State>, cur: Cursors, s: nat, k: nat)
    requires Shape(st) && CursorsOk(st, cur) && s < |st| && st[s].innerIndex < k <= |st[s].inner|
    ensures ResetAllSlotsAsWritten(st, cur, s, k).1 == Fail(NullPointer)
    ensures ResetAllSlotsAsWritten(st, cur, s, k).0 == ResetAllSlotsAsWritten(st, cur, s, st[s].innerIndex).0
  {
    assert ValidState(st, s);
    if k - 1 > st[s].innerIndex {
      ResetSlotsPastIndexFail(st, cur, s, k - 1);
    }
  }

  /** Where every inner array is full, the reset as written is the corrected `Reset`. */
  lemma {:induction false} ResetAsWrittenAgreesWhenFull(st: seq<State>, cur: Cursors, s: nat)
    requires Shape(st) && CursorsOk(st, cur) && s < |st| && FullBelow(st, s)
    ensures ResetAsWritten(st, cur, s) == (Reset(st, cur, s), Pass)
    decreases Level(st, s), 1
  {
    assert ValidState(st, s);
    if st[s].innerIndex > 0 {
      ResetSlotsAgreeWhenFull(st, SetCursor(st, cur, s, st[s].inner[0]), s, |st[s].inner|);
    }
  }

  /** Over added inner states with full subtrees, the loop as written is the corrected loop. */
  lemma {:induction false} ResetSlotsAgreeWhenFull(st: seq<State>, cur: Cursors, s: nat, k: nat)
    requires Shape(st) && CursorsOk(st, cur) && s < |st| && k <= st[s].innerIndex && ChildrenFull(st, s, k)
    ensures ResetAllSlotsAsWritten(st, cur, s, k) == (ResetSlots(st, cur, s, k), Pass)
    decreases Level(st, s), 0, k
  {
    assert ValidState(st, s);
    if k > 0 {
      ResetSlotsAgreeWhenFull(st, cur, s, k - 1);
      ResetAsWrittenAgreesWhenFull(st, ResetSlots(st, cur, s, k - 1), st[s].inner[k - 1].value);
    }
  }
}
