# PWidgets nested state machine and touch joystick, in Dafny

This project models the nested (hierarchical) finite state machine engine of
PWidgets and the touch joystick widget built on it, and proves properties of
both.

- **Event spaces and events.** Module `Events`, in `events.dfy`, covers
  `fsm/EventSpace.java` and `fsm/FsmEvent.java`. An `EventSpace` mints at
  most `size` events, numbered from 0 in minting order. An event belongs to
  the space that minted it. Membership is decided by reference, as the Java
  `HashSet` does without an `equals` override.
- **The engine.** `fsm/FsmState.java` and `fsm/FsmStateOrtho.java` are
  modelled in two layers:
  - Module `HfsmSpec` (`hfsm_spec.dfy`) holds functions on an arena of
    states addressed by index. The arena's structure (space, transition
    table, inner array) is a `seq<State>`. The cursors (`mCurrentState`,
    one per state) are a separate `seq<Option<nat>>`, where `None` is null.
    `Signal`, `Delegate`, `Reset` and `PerformTrace` say what
    `signalEvent`, `signalEventToInternalState`, `resetInternalState` and
    `performAction` are evidently meant to do. They use corrected versions
    of `hasInternalState` and `resetInternalState`, which test and reset
    only the inner states actually added (Findings rows 1 and 2).
  - Module `Hfsm` (`hfsm.dfy`) has class `Machine`, whose methods update
    `states`, `cursors` and an action `trace` in place. Each method is
    proved to do what the matching function says.
  - A ghost `level` on each event space ranks the nesting. An inner state
    listens to a lower-ranked space, and this is what makes the recursion
    terminate.
  - The orthogonal variant is a per-state `ortho` flag. With it set,
    signalling goes to the first non-null region and every region acts.
- **The engine as written.** Module `HfsmAsWritten`
  (`hfsm_as_written.dfy`) models `hasInternalState` and
  `resetInternalState` as written, next to the corrected versions (see
  Findings). A reset that throws still returns the cursors it wrote before
  the throw.
- **The older engine.** Module `Legacy` (`legacy.dfy`) models
  `utils/FsmState.java`. There, event spaces are integer ids and
  `performAction` both evaluates and delegates an event.
- **Java integers.** Module `JavaInt` (`java_int.dfy`) states 32-bit `int`
  wrap-around, truncating division and the narrowing `(byte)` cast.
- **The joystick widget (`controls/Joystick.java`):**
  - Module `Controls` (`joystick.dfy`) covers touch classification
    (`evaluateEvent`), the travel radius, the change of reference frame,
    and the scaling to two signed-byte sub-channels.
  - Module `JoystickFsm` (`joystick_fsm.dfy`) wires the joystick's nested
    machine on the `Hfsm` engine: a host state over the workers Idle,
    InBoundary and OnBoundary. It proves that the wired tables are the
    state chart `Step`.
  - Module `Widget` (`joystick_widget.dfy`) has class `Joystick`. Its
    `OnTouchEvent` is proved to follow the function `Respond`. Module
    `WidgetProperties` proves what a touch does:
    - it fails only on a division by zero;
    - after a failure, only a release gets through;
    - a release re-centres the tracker;
    - a grip starts tracking;
    - the tracker stays within the travel radius;
    - sub-channel signs follow the tracker's offset.

Places where the design description and the code disagree; the model
follows the code:

- **Orthogonal regions.** The design describes orthogonal regions that all
  receive an event. `FsmStateOrtho` hands the event to the first non-null
  region only (`OrthoSignalsFirstRegionOnly`); only `performAction`
  reaches every region.
- **Entry and exit actions.** There are none in the code. A transition
  only resets the subtree of the state that took it.
- **Entry substate.** The older engine lets `setEntrySubstate` be called
  any number of times; it simply overwrites.
- **Ortho overrides.** `FsmStateOrtho` overrides the private hooks of
  `FsmState`, which Java does not allow. The model implements the evident
  intent: the hooks are dispatched on the `ortho` flag.
- **Legacy state name.** In the `utils/FsmState.java` constructor, the
  parameter `mName` shadows the field, so the name is never stored.
  `LState` has no name.
- **Which engine the joystick uses.** `JoystickFsm` is written against
  the older API: integer space ids, `super("Joystick", 0, 0)`,
  `setEntrySubstate`, three-argument events. Yet it imports the `fsm`
  package. It is modelled on the `fsm` engine:
  - the host listens to an empty space of level 1 and has one inner slot;
  - the workers listen to a 4-event space of level 0;
  - Idle is added as the host's first inner state, which makes it the
    entry.

  `Legacy.JoystickLosesTrackingOnMove` shows the same wiring on the older
  engine.
- **Event names.** `EVENT_INBOUNDARY` is named "OnBoundary" and
  `EVENT_ONBOUNDARY` is named "InBoundary" (`Joystick.java:42-43`). Only
  the names are swapped; the ids (2 and 3) are what the machine uses, and
  `MintEvents` mints them under these names.
- **Android action codes.** `MotionEvent` actions are the platform's
  constants: DOWN 0, UP 1, MOVE 2, CANCEL 3.

## Model

| member | source | states |
|---|---|---|
| Events.FsmEvent.constructor | src/com/tronacademy/phantom/fsm/FsmEvent.java:22-25 | the event keeps the name and id it was given |
| Events.EventSpace.constructor | src/com/tronacademy/phantom/fsm/EventSpace.java:24-31 | a non-negative size gives an empty, well-formed space of that capacity |
| Events.EventSpace.Create | src/com/tronacademy/phantom/fsm/EventSpace.java:24-31 | the space is refused with NegativeArraySize exactly when the size is negative; otherwise it is fresh, empty and has that size |
| Events.EventSpace.IdsIdentifyEvents | src/com/tronacademy/phantom/fsm/EventSpace.java:40-48 | no two events of one space share an id, and every id is below the number minted, which is at most the size |
| Events.EventSpace.NewEvent | src/com/tronacademy/phantom/fsm/EventSpace.java:40-48 | minting succeeds exactly while fewer than `size` events exist; the new event is fresh, has the caller's name and the count so far as id, and joins the space, and it is a member of no other space that existed before, since `hasEvent` tests the set by reference; a full space answers EventSpaceFull and is unchanged |
| Events.MembershipIsByIdentity | src/com/tronacademy/phantom/fsm/EventSpace.java:40-66 | example: two one-slot spaces each mint an event with id 0; each event is a member of its own space only, and a second mint is refused |
| HfsmSpec.Nulls | src/com/tronacademy/phantom/fsm/FsmState.java:70-71 | a fresh inner array holds `n` null slots |
| HfsmSpec.AddInnerKeepsShape | src/com/tronacademy/phantom/fsm/FsmState.java:105-110 | putting a lower-ranked child of another space in the next free slot, and pointing the cursor at slot 0, keeps the arena and its cursors well formed |
| HfsmSpec.FirstRegion | src/com/tronacademy/phantom/fsm/FsmStateOrtho.java:19-24 | a region is found exactly when some slot is non-null, and it is one of the slots |
| HfsmSpec.FirstRegionAt | src/com/tronacademy/phantom/fsm/FsmStateOrtho.java:19-23 | a non-null slot preceded only by null slots is the one the loop picks |
| HfsmSpec.DelegateeBelow | src/com/tronacademy/phantom/fsm/FsmState.java:192-204 | the state an event is delegated to ranks strictly below its owner, which has an inner state |
| HfsmSpec.SetCursor | src/com/tronacademy/phantom/fsm/FsmState.java:150-152 | moving one cursor to a lower-ranked state keeps every cursor well formed and changes only that one |
| HfsmSpec.Reset | src/com/tronacademy/phantom/fsm/FsmState.java:222-232 | a reset leaves every cursor well formed |
| HfsmSpec.ResetAt | src/com/tronacademy/phantom/fsm/FsmState.java:222-232 | after a reset of `s`, a state in its subtree has its entry as cursor and any other state keeps its cursor |
| HfsmSpec.ResetSlotsAt | src/com/tronacademy/phantom/fsm/FsmState.java:228-230 | the same for the first `k` inner states of the loop |
| HfsmSpec.ResetEffect | src/com/tronacademy/phantom/fsm/FsmState.java:222-232 | for every state at once: subtree states are back at their entry, all others unchanged |
| HfsmSpec.Signal | src/com/tronacademy/phantom/fsm/FsmState.java:127-159 | signalling keeps the cursors well formed, and a returned target listens to the same space as the state |
| HfsmSpec.Delegate | src/com/tronacademy/phantom/fsm/FsmState.java:192-204 | a target returned from below ranks below the owner, which has an inner state |
| HfsmSpec.ActivePath | src/com/tronacademy/phantom/fsm/FsmState.java:192-204 | the delegation path starts at the state and stays in the arena |
| HfsmSpec.ForeignEventIsIgnored | src/com/tronacademy/phantom/fsm/FsmState.java:127-159 | a null event, or one of no space on the active path, changes no cursor and returns null |
| HfsmSpec.TransitionResetsSubtree | src/com/tronacademy/phantom/fsm/FsmState.java:133-144 | an event of the state's own space returns its table slot; a bound slot resets exactly the state's subtree, and an empty slot changes nothing |
| HfsmSpec.DelegatedEventKeepsOwner | src/com/tronacademy/phantom/fsm/FsmState.java:145-157 | a delegated event never returns a target; the owner's cursor moves to a non-null answer from below and otherwise stays |
| HfsmSpec.NoInnerStateNoDelegation | src/com/tronacademy/phantom/fsm/FsmState.java:192-204 | with no inner state added, delegation changes nothing and returns null, in both variants |
| HfsmSpec.OrthoSignalsFirstRegionOnly | src/com/tronacademy/phantom/fsm/FsmStateOrtho.java:16-28 | an orthogonal state hands a delegated event to its first region alone and returns that region's answer |
| HfsmSpec.PerformTrace | src/com/tronacademy/phantom/fsm/FsmState.java:206-216 | the state's own action comes last in its trace |
| HfsmSpec.PerformFollowsActivePath | src/com/tronacademy/phantom/fsm/FsmState.java:206-216 | through single-region states, the actions run along the active path, deepest first |
| HfsmSpec.OrthoPerformReachesEveryRegion | src/com/tronacademy/phantom/fsm/FsmStateOrtho.java:30-39 | every added region of an orthogonal state acts before the state itself |
| HfsmSpec.RegionsTraceContains | src/com/tronacademy/phantom/fsm/FsmStateOrtho.java:33-37 | each added region among the first `k` slots appears in their trace |
| Hfsm.Machine.NewState | src/com/tronacademy/phantom/fsm/FsmState.java:63-72 | a negative inner size fails with NegativeArraySize and changes nothing; otherwise the new state has an empty table of the space's size, `intSpSize` null inner slots and a null cursor |
| Hfsm.Machine.BindEventToTransition | src/com/tronacademy/phantom/fsm/FsmState.java:81-94 | binding succeeds exactly when target and event belong to the state's space, and then sets only the event's slot; otherwise EventSpaceMismatch and no change |
| Hfsm.Machine.AddStateToInternalFsm | src/com/tronacademy/phantom/fsm/FsmState.java:102-119 | a child of the same space fails with EventSpaceConflict and a full array with IndexOutOfBounds, both with no change; otherwise the child takes the next slot and the cursor goes to slot 0 |
| Hfsm.Machine.SignalEvent | src/com/tronacademy/phantom/fsm/FsmState.java:127-159 | the new cursors and the returned target are those of `Signal` |
| Hfsm.Machine.SignalEventToInternalState | src/com/tronacademy/phantom/fsm/FsmState.java:192-204 | the new cursors and the answer are those of `Delegate` |
| Hfsm.Machine.SignalEventToRegions | src/com/tronacademy/phantom/fsm/FsmStateOrtho.java:16-28 | the orthogonal hook's effect and answer are those of `Delegate` |
| Hfsm.Machine.ResetInternalState | src/com/tronacademy/phantom/fsm/FsmState.java:222-232 | the new cursors are `Reset` of the old ones |
| Hfsm.Machine.PerformAction | src/com/tronacademy/phantom/fsm/FsmState.java:166-169 | the trace grows by `PerformTrace` of the state |
| Hfsm.Machine.PerformActionOfInternalState | src/com/tronacademy/phantom/fsm/FsmState.java:206-216 | the trace grows by the inner part of `PerformTrace` |
| Hfsm.Machine.PerformActionOfRegions | src/com/tronacademy/phantom/fsm/FsmStateOrtho.java:30-39 | the trace grows by every region's trace, in slot order |
| Hfsm.Machine.PerformActionOfSlot | src/com/tronacademy/phantom/fsm/FsmStateOrtho.java:33-37 | the trace grows by the trace of the slot's region, or not at all for a null slot |
| HfsmAsWritten.ActiveChildAsWrittenFailsWithoutInnerState | src/com/tronacademy/phantom/fsm/FsmState.java:192-220 | as written, delegation dereferences null exactly when a single-region state has inner slots but no inner state was added; an orthogonal state never fails and, like every other case, picks the corrected state |
| HfsmAsWritten.EmptyHostDereferencesNull | src/com/tronacademy/phantom/fsm/FsmState.java:197-200 | a single-region host built with one inner slot and no inner state fails on delegation; its orthogonal variant delegates nowhere |
| HfsmAsWritten.ResetAsWritten | src/com/tronacademy/phantom/fsm/FsmState.java:222-232 | the reset as written leaves well-formed cursors, also those written before a throw, and the only exception it throws is a null dereference |
| HfsmAsWritten.ResetAllSlotsAsWritten | src/com/tronacademy/phantom/fsm/FsmState.java:228-230 | the same for the first `k` slots of its loop, which stops at the first throw |
| HfsmAsWritten.ResetAsWrittenFailsOnPartialArray | src/com/tronacademy/phantom/fsm/FsmState.java:222-232 | the reset as written throws a null dereference on any state whose inner array is not full; when the added inner states' subtrees are full, the cursors it leaves are those of the corrected `Reset` |
| HfsmAsWritten.ResetSlotsPastIndexFail | src/com/tronacademy/phantom/fsm/FsmState.java:228-230 | the loop throws once it passes the last added inner state, keeping the cursors of the added slots' resets |
| HfsmAsWritten.ResetAsWrittenAgreesWhenFull | src/com/tronacademy/phantom/fsm/FsmState.java:222-232 | when every inner array in the subtree is full, the reset as written does not throw and its cursors are those of the corrected `Reset` |
| HfsmAsWritten.ResetSlotsAgreeWhenFull | src/com/tronacademy/phantom/fsm/FsmState.java:228-230 | over added inner states with full subtrees, the loop as written is the corrected loop, slot by slot |
| Legacy.Chain | src/com/tronacademy/phantom/utils/FsmState.java:158-166 | the cursor chain starts at the state and never ranks above it |
| Legacy.Erase | src/com/tronacademy/phantom/utils/FsmState.java:158-166 | erasing keeps the cursors well formed |
| Legacy.EraseEffect | src/com/tronacademy/phantom/utils/FsmState.java:158-166 | erasing nulls every cursor on the chain and changes no other |
| Legacy.Perform | src/com/tronacademy/phantom/utils/FsmState.java:104-149 | cursors stay well formed, a returned target ranks no higher than the state, and the only exception is IndexOutOfBounds |
| Legacy.SameSpaceEventIsLookedUp | src/com/tronacademy/phantom/utils/FsmState.java:110-130 | an event of the state's own space id throws IndexOutOfBounds when its id is outside the table; otherwise it returns the table slot, erasing the chain only when the slot is bound |
| Legacy.DelegationOverwritesCursor | src/com/tronacademy/phantom/utils/FsmState.java:131-147 | an event of another space id returns null, and the cursor becomes exactly what the child returned, null included |
| Legacy.JoystickLosesTrackingOnMove | src/com/tronacademy/phantom/utils/FsmState.java:141-143 | on this engine the joystick gripped and then moved inside the boundary nulls the host cursor, and reaching the boundary then leaves it null, so the joystick has fallen back to its Idle entry instead of OnBoundary |
| Legacy.GripMovesHostToInBoundary | src/com/tronacademy/phantom/utils/FsmState.java:136-143 | a grip on the idle joystick moves the host cursor to InBoundary |
| Legacy.MoveInsideNullsHostCursor | src/com/tronacademy/phantom/utils/FsmState.java:141-143 | a move inside the boundary, which InBoundary does not bind, nulls the host cursor |
| Legacy.BoundaryAfterNullStaysIdle | src/com/tronacademy/phantom/utils/FsmState.java:136-143 | from a null cursor, reaching the boundary restarts at Idle and leaves the cursor null |
| Legacy.LegacyMachine.NewState | src/com/tronacademy/phantom/utils/FsmState.java:51-56 | a negative size fails with NegativeArraySize; otherwise the state keeps the space id and has an empty table of that size, no entry and a null cursor |
| Legacy.LegacyMachine.SetEntrySubstate | src/com/tronacademy/phantom/utils/FsmState.java:63-65 | the entry substate is overwritten and nothing else changes |
| Legacy.LegacyMachine.AddTransitionState | src/com/tronacademy/phantom/utils/FsmState.java:75-93 | another space id fails with IllegalArgument and an id outside the table with IndexOutOfBounds, both with no change; otherwise only that table slot changes |
| Legacy.LegacyMachine.PerformAction | src/com/tronacademy/phantom/utils/FsmState.java:104-149 | the new cursors and the result are those of `Perform` |
| Legacy.LegacyMachine.EraseInternalState | src/com/tronacademy/phantom/utils/FsmState.java:158-166 | the new cursors are those of `Erase` |
| JavaInt.Wrap | src/com/tronacademy/phantom/controls/Joystick.java:259-261 | a 32-bit result is in `int` range, congruent modulo 2^32, and exact when the true value fits |
| JavaInt.QuotRemainder | src/com/tronacademy/phantom/controls/Joystick.java:324 | truncating division leaves a remainder smaller than the divisor in magnitude, with the dividend's sign |
| JavaInt.ToByte | src/com/tronacademy/phantom/controls/Joystick.java:328 | `(byte)` yields a value in -128..127, congruent modulo 256, and exact on values that fit |
| JavaInt.QuotOfNonNegative | src/com/tronacademy/phantom/controls/Joystick.java:336 | on non-negative operands Java's division is floor division |
| Controls.TravelRadIsSeventyPercent | src/com/tronacademy/phantom/controls/Joystick.java:335-337 | the travel radius is 70% of the base radius rounded down, lies between 0 and the base radius, and is 0 exactly for a base radius of at most 1 |
| Controls.TouchTrkrRadIsRadius | src/com/tronacademy/phantom/controls/Joystick.java:275 | with 100% touchable, the touchable radius is the tracker radius |
| Controls.SquaredNormExact | src/com/tronacademy/phantom/controls/Joystick.java:277 | for on-screen offsets, `x*x + y*y` does not overflow |
| Controls.RadiusSquaredExact | src/com/tronacademy/phantom/controls/Joystick.java:284 | a radius of at most 16383 squares without overflow |
| Controls.EvaluateEventGeometry | src/com/tronacademy/phantom/controls/Joystick.java:267-296 | for on-screen inputs, a press grips exactly within the tracker's radius and otherwise releases; a move is inside exactly within the travel radius and otherwise on the boundary; any other action releases |
| Controls.ToAbstractRefFrame | src/com/tronacademy/phantom/controls/Joystick.java:312-316 | the abstract vector has one component per sub-channel |
| Controls.AbstractRefFrameRoundTrip | src/com/tronacademy/phantom/controls/Joystick.java:312-316 | the change of frame is undone by its inverse; x grows to the right and y grows upward |
| Controls.ScaleToSubChan | src/com/tronacademy/phantom/controls/Joystick.java:324-329 | a scaled component is a signed byte |
| Controls.SubChanVector | src/com/tronacademy/phantom/controls/Joystick.java:318-333 | a vector that is computed has one value per sub-channel |
| Controls.ToSubChanRefFrame | src/com/tronacademy/phantom/controls/Joystick.java:318-333 | the loop over a fresh byte array computes `SubChanVector`, and fails with Arithmetic when the travel radius is 0 |
| Controls.SubChanWithinTravel | src/com/tronacademy/phantom/controls/Joystick.java:324-329 | within the travel radius the value is `128*v/t` truncated, with +t clamped to 127 and -t reaching -128, and it keeps the sign of the offset |
| Controls.SubChanMonotone | src/com/tronacademy/phantom/controls/Joystick.java:324-329 | within the travel radius the scaling is monotone |
| Controls.SubChanOutsideTravel | src/com/tronacademy/phantom/controls/Joystick.java:324-329 | for every offset whose product with 128 fits in an `int`, the value is the truncated `128*v/t` exactly when that fits in a byte; above the byte range it is clamped to 127, below it the byte cast wraps modulo 256 |
| Controls.SubChanBelowRangeWraps | src/com/tronacademy/phantom/controls/Joystick.java:325-328 | concrete values: with travel 200, offset -201 still reads -128 and offset -202 wraps to 127; with travel 1, -2 wraps to 0 and 2 clamps to 127 |
| Controls.GetSubChanValAsWrittenMissesChannels | src/com/tronacademy/phantom/controls/Joystick.java:104-111 | as written, sub-channel 0 is refused, sub-channel 2 overruns the array, and only 1 reads a value |
| Controls.SubChanValueReadsEveryChannel | src/com/tronacademy/phantom/controls/Joystick.java:104-111 | corrected, exactly the sub-channels 0 and 1 are read, each giving its own component |
| Controls.SubChanChangesExact | src/com/tronacademy/phantom/controls/Joystick.java:298-310 | a sub-channel is reported exactly when its coordinate differs from its own cache, in increasing order |
| Controls.SubChanChangesAsWrittenConfusesAxes | src/com/tronacademy/phantom/controls/Joystick.java:302-308 | as written, a vertical move goes unreported and a horizontal one reports sub-channel 1 too |
| JoystickFsm.Step | src/com/tronacademy/phantom/controls/Joystick.java:360-367 | the state chart always answers a worker |
| JoystickFsm.TableIsStep | src/com/tronacademy/phantom/controls/Joystick.java:360-367 | a worker's table slot is bound exactly when the chart leaves that worker, and then holds the chart's target |
| JoystickFsm.Fsm.constructor | src/com/tronacademy/phantom/controls/Joystick.java:340-368 | the wired machine is well formed and starts at Idle |
| JoystickFsm.Fsm.Signal | src/com/tronacademy/phantom/controls/Joystick.java:360-367 | the host never transitions, and the active worker moves as the state chart says |
| JoystickFsm.Fsm.PerformAction | src/com/tronacademy/phantom/fsm/FsmState.java:206-216 | the active worker acts, then the host |
| JoystickFsm.MintEvents | src/com/tronacademy/phantom/controls/Joystick.java:38-43 | the four joystick events are minted with ids 0 to 3 and fill the space, under the source's names: id 2 is named "OnBoundary" and id 3 "InBoundary" |
| JoystickFsm.AddStates | src/com/tronacademy/phantom/controls/Joystick.java:343-358 | the host and the three workers are created, and Idle is the host's entry and cursor |
| JoystickFsm.NewWorkers | src/com/tronacademy/phantom/controls/Joystick.java:343-345 | three workers with empty tables and no inner states are appended |
| JoystickFsm.BindTransitions | src/com/tronacademy/phantom/controls/Joystick.java:360-367 | the five bindings produce the wired tables |
| JoystickFsm.BindWorker | src/com/tronacademy/phantom/controls/Joystick.java:363-364 | two bindings on a worker set exactly those two slots |
| JoystickFsm.BoundTables | src/com/tronacademy/phantom/controls/Joystick.java:360-367 | the bindings turn the empty tables into the chart's tables |
| JoystickFsm.SignalOnWorker | src/com/tronacademy/phantom/fsm/FsmState.java:145-157 | on the wired arena, a joystick event moves the host's cursor to the chart's next worker and returns null |
| JoystickFsm.GripThenReachBoundary | src/com/tronacademy/phantom/controls/Joystick.java:360-367 | grip, move inside, reach the boundary: the joystick ends at OnBoundary |
| Widget.TransitionNotices | src/com/tronacademy/phantom/controls/Joystick.java:381-442 | a worker that stays put notifies nothing, and a release is reported exactly when a tracking worker is released |
| Widget.SubChanNoticesFollowChanges | src/com/tronacademy/phantom/controls/Joystick.java:298-310 | there is one notice per changed sub-channel, carrying that sub-channel's value |
| Widget.Joystick.constructor | src/com/tronacademy/phantom/controls/Joystick.java:72-84 | a new widget is enabled, not centred, not processing, has no listener, and its machine is at Idle |
| Widget.Joystick.SetTouchable | src/com/tronacademy/phantom/controls/Joystick.java:119-122 | the enabled flag becomes the argument |
| Widget.Joystick.SetControlInputListener | src/com/tronacademy/phantom/controls/Joystick.java:114-116 | the listener is replaced |
| Widget.Joystick.OnDraw | src/com/tronacademy/phantom/controls/Joystick.java:175-182 | the first draw centres the tracker; later draws leave it |
| Widget.Joystick.GetSubChanVal | src/com/tronacademy/phantom/controls/Joystick.java:104-111 | the answer is the corrected `SubChanValue` of the tracker's current sub-channel vector |
| Widget.Joystick.SignalSubChanChange | src/com/tronacademy/phantom/controls/Joystick.java:298-310 | the listener receives `SubChanSignal`'s notices, which compare each axis with its own cache (the corrected comparison of Findings row 4), or the division by zero escapes with no notice |
| Widget.Joystick.RunWorkerAction | src/com/tronacademy/phantom/controls/Joystick.java:234-265 | the worker's action puts the tracker where `Track` says and signals the sub-channels; a zero root fails and changes nothing |
| Widget.Joystick.OnTouchEvent | src/com/tronacademy/phantom/controls/Joystick.java:146-172 | the widget's new state and answer are those of `Respond`, whose sub-channel notices use the corrected per-axis comparison (Findings row 4) and whose machine steps use the corrected engine (Findings rows 1 and 2) |
| Widget.Joystick.TakeEvent | src/com/tronacademy/phantom/controls/Joystick.java:150-154 | an accepted event marks the widget processing, steps the machine and records the worker's notices |
| Widget.Joystick.FinishTouch | src/com/tronacademy/phantom/controls/Joystick.java:155-168 | the rest of an accepted touch follows `Finish` |
| Widget.Joystick.SettleTouch | src/com/tronacademy/phantom/controls/Joystick.java:157-168 | processing ends, and the cache is updated unless a press missed the tracker |
| WidgetProperties.RespondFailsOnlyOnDivisionByZero | src/com/tronacademy/phantom/controls/Joystick.java:253-265 | an accepted touch fails exactly when it projects with a zero root or scales by a zero travel radius, and the failure is Arithmetic |
| WidgetProperties.RespondProcessing | src/com/tronacademy/phantom/controls/Joystick.java:146-172 | a refused touch changes nothing and answers false; an accepted one steps the machine, and leaves the widget processing exactly when it failed |
| WidgetProperties.StuckUntilRelease | src/com/tronacademy/phantom/controls/Joystick.java:149-157 | after a failed touch, every touch that is not a release is refused |
| WidgetProperties.ReleaseRecentres | src/com/tronacademy/phantom/controls/Joystick.java:234-241 | a release brings the machine to Idle, re-centres the tracker and ends processing; it answers false only for a missed press; the listener hears of the release exactly when the joystick was tracking |
| WidgetProperties.GripStartsTracking | src/com/tronacademy/phantom/controls/Joystick.java:146-168 | gripping an idle widget moves it to InBoundary, with tracker and cache at the finger, and the listener first hears that tracking started |
| WidgetProperties.TrackWithinTravel | src/com/tronacademy/phantom/controls/Joystick.java:244-265 | each worker's action keeps the tracker within the travel radius of the centre on each axis |
| WidgetProperties.RespondKeepsTrackerWithinTravel | src/com/tronacademy/phantom/controls/Joystick.java:146-172 | every touch preserves the invariant that the tracker lies within the travel radius of the centre on each axis |
| WidgetProperties.TouchWithinTravel | src/com/tronacademy/phantom/controls/Joystick.java:273-288 | a touch classified as a grip or an inside move lies within the travel radius on each axis |
| WidgetProperties.SubChansFollowOffset | src/com/tronacademy/phantom/controls/Joystick.java:312-333 | with the tracker within the travel radius on each axis, both sub-channels are computed, and their signs follow the tracker's offset, with up positive |

## Left out

- Concurrency: `synchronized` on `getSubChanVal` and `setSubChanVal` is not modelled; every call runs alone.
- Listener callbacks: they are recorded as `Notice` values in the widget's `notices` sequence. The root view argument is dropped.
- Drawing: bitmaps, paints, `loadGraphics`, `indicateTouchable`, `invalidate` and the canvas calls of `onDraw` are left out. Only the tracker centring of `onDraw` is modelled.
- Sizing: `onMeasure` is left out. The centre and radii it computes are the `Geometry` given to the widget's constructor.
- `Math.sqrt`: on the boundary, `(int) Math.sqrt(dx*dx + dy*dy)` is the parameter `mag`. Lemmas that need its meaning require `IsIntSqrt`.
- Touch coordinates: the `float` to `int` casts of `event.getX()` and `event.getY()` are left out; coordinates arrive as integers.
- Exceptions: exception messages and their string formatting are dropped. Each exception class is a variant of `Exc`.
- Null arguments: null state arguments to `bindEventToTransition` and `addStateToInternalFsm`, and null event arguments to `bindEventToTransition` and `addTransitionState`, are not modelled; those states and events are always present. The null target state of `addTransitionState` is modelled, as `None`.
- Context arguments: the varargs context of `signalEvent` is dropped. The widget's touch is passed to the worker actions directly.
- `setSubChanVal`, which always throws `UnsupportedOperationException`, is not modelled.
- `configure`, whose body is empty, is not modelled.
- `getNumOfSubChans` is not modelled beyond the constant `NUM_OF_SUBCHANS`.
- Getters without contracts: `GetName`, `GetId`, `GetSize`, `IsMemberOf`, `HasEvent`, `GetEvSpaceId`, `getListenEventSpace`, `getCurrentInternalState`, `getBaseRad`, `getTrkrRad`.
- Hfsm.Machine.AddStateToInternalFsm: requires a child of another space to rank below its owner. The source accepts cycles, which would make signalling recurse forever. Because the rank belongs to the event space, the requirement also rejects some acyclic nestings that reuse a space at different depths, such as A (space S1) holding B (space S2) next to C (space S2) holding D (space S1).
- HfsmAsWritten.ResetAsWritten: the cursors left after a throw are computed for every arena, but characterised only when the throw comes from the reset state's own array, not from deeper in its subtree.
- Legacy.LegacyMachine.SetEntrySubstate: carries the same ranking requirement, through the ghost `rank`.
- Legacy.LegacyMachine.AddTransitionState: carries the same ranking requirement, through the ghost `rank`.
- Controls.EvaluateEventGeometry: holds only for on-screen coordinates and radii below 16384. Beyond that, the `int` squares overflow, and the lemma says nothing there.
- WidgetProperties.RespondKeepsTrackerWithinTravel: requires a tracker radius no larger than the travel radius. A grip near the edge of a larger tracker can start outside the travel radius.
- WidgetProperties.TrackWithinTravel: states the travel bound per axis, a square around the travel circle, not the circle itself.

## Findings

| source | as written | input that shows it | evidently intended | confidence | as-written member | corrected member |
|---|---|---|---|---|---|---|
| src/com/tronacademy/phantom/fsm/FsmState.java:218-220 | `hasInternalState` tests the inner array's length, so a single-region state with inner capacity but no inner state added delegates to null slot 0 (the orthogonal variant skips null regions and is unaffected) | a host built with `intSpSize` 1, before `addStateToInternalFsm`, given an event of another space | test whether an inner state was added | not executed | HfsmAsWritten.ActiveChildAsWrittenFailsWithoutInnerState | HfsmSpec.NoInnerStateNoDelegation |
| src/com/tronacademy/phantom/fsm/FsmState.java:222-232 | `resetInternalState` calls `resetInternalState` on every slot of the inner array, including null slots | a transition taken by a state with 2 inner slots and 1 inner state: slot 0 is reset, then slot 1 throws | reset only the added inner states | not executed | HfsmAsWritten.ResetAsWrittenFailsOnPartialArray | HfsmSpec.ResetEffect |
| src/com/tronacademy/phantom/controls/Joystick.java:104-111 | `getSubChanVal` accepts `0 < subchannel <= 2` and indexes a 2-element array with it | subchannel 0 (refused) and subchannel 2 (array overrun) | accept `0 <= subchannel < 2` | not executed | Controls.GetSubChanValAsWrittenMissesChannels | Controls.SubChanValueReadsEveryChannel |
| src/com/tronacademy/phantom/controls/Joystick.java:306 | sub-channel 1 is reported when `mTrkrPosX != mTrkrPosYCache` | tracker (3,4) with cache (3,3) reports nothing; tracker (4,3) with cache (3,3) also reports sub-channel 1 | compare `mTrkrPosY` with `mTrkrPosYCache` | not executed | Controls.SubChanChangesAsWrittenConfusesAxes | Controls.SubChanChangesExact |
| src/com/tronacademy/phantom/utils/FsmState.java:141-143 | the parent's cursor is overwritten with the child's result, which is null whenever the child does not transition | joystick: grip, then a move inside the boundary, then reaching the boundary ends at Idle | keep the current child when it returns null, as the later engine does (`fsm/FsmState.java:150-152`) | not executed | Legacy.JoystickLosesTrackingOnMove | JoystickFsm.GripThenReachBoundary |
