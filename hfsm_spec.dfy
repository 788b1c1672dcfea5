/**
 * Specification of the nested state machine engine of the current revision
 * (fsm/FsmState.java and its orthogonal variant fsm/FsmStateOrtho.java).
 *
 * States live in an arena addressed by index, where `None` stands for a null
 * reference.  The arena has two parts, as the source's fields do: the
 * structure (`seq<State>`: name, space, table, inner states), fixed once the
 * machine runs, and the cursors (`seq<Option<nat>>`, one `mCurrentState` per
 * state), the only thing signalling changes.  The functions here compute what
 * the engine's methods do; the class in module `Hfsm` is proved to follow them.
 */
module HfsmSpec {
  import opened Common
  import opened Events

  /**
   * One state.  `table` is the transition table indexed by event id,
   * `inner` the fixed-size array of inner states filled in order up to
   * `innerIndex`.  `ortho` selects the orthogonal variant, whose two
   * delegation hooks are overridden.
   */
  datatype State = State(
    name: string,
    space: EventSpace,
    ortho: bool,
    table: seq<Option<nat>>,
    inner: seq<Option<nat>>,
    innerIndex: nat)

  type Cursors = seq<Option<nat>>

  /** A freshly allocated array of state references: `n` nulls. */
  function Nulls(n: nat): (r: seq<Option<nat>>)
    ensures |r| == n && forall k :: 0 <= k < n ==> r[k].None?
  {
    seq(n, _ => None)
  }

  /** Rank of state `s`: the level of the space it listens to. */
  ghost function Level(st: seq<State>, s: nat): nat
    requires s < |st|
  {
    st[s].space.level
  }

  /**
   * The structure every reachable arena has.  The table has one slot per event
   * of the space and only targets states of the same space; the inner array is
   * filled in order, and inner states rank strictly below their owner.
   */
  ghost predicate ValidState(st: seq<State>, i: nat)
    requires i < |st|
  {
    var x := st[i];
    && x.innerIndex <= |x.inner|
    && |x.table| == x.space.size
    && (forall k :: 0 <= k < |x.table| && x.table[k].Some? ==>
          x.table[k].value < |st| && st[x.table[k].value].space == x.space)
    && (forall k :: 0 <= k < x.innerIndex ==>
          x.inner[k].Some? && x.inner[k].value < |st| && st[x.inner[k].value].space.level < x.space.level)
    && (forall k :: x.innerIndex <= k < |x.inner| ==> x.inner[k].None?)
  }

  ghost predicate Shape(st: seq<State>)
  {
    forall i {:trigger st[i]} :: 0 <= i < |st| ==> ValidState(st, i)
  }

  /** A cursor ranks below its owner, and is null while the owner has no inner state. */
  ghost predicate CursorOk(st: seq<State>, cur: Cursors, i: nat)
    requires |cur| == |st| && i < |st|
  {
    && (cur[i].Some? ==> cur[i].value < |st| && Level(st, cur[i].value) < Level(st, i))
    && (st[i].innerIndex == 0 ==> cur[i].None?)
  }

  ghost predicate CursorsOk(st: seq<State>, cur: Cursors)
  {
    |cur| == |st| && forall i {:trigger cur[i]} :: 0 <= i < |cur| ==> CursorOk(st, cur, i)
  }

  /**
   * Adding a lower-level child of another space to the next free inner slot
   * of `s`, and pointing the cursor of `s` at its first inner state, keeps
   * the arena well formed.
   */
  lemma AddInnerKeepsShape(st: seq<State>, cur: Cursors, s: nat, child: nat)
    requires Shape(st) && CursorsOk(st, cur) && s < |st| && child < |st|
    requires st[child].space != st[s].space && Level(st, child) < Level(st, s)
    requires st[s].innerIndex < |st[s].inner|
    ensures var x := st[s];
      var y := x.(inner := x.inner[x.innerIndex := Some(child)], innerIndex := x.innerIndex + 1);
      Shape(st[s := y]) && CursorsOk(st[s := y], cur[s := y.inner[0]])
  {
    var x := st[s];
    var y := x.(inner := x.inner[x.innerIndex := Some(child)], innerIndex := x.innerIndex + 1);
    var st1, cur1 := st[s := y], cur[s := y.inner[0]];
    assert ValidState(st, s);
    forall i | 0 <= i < |st1|
      ensures ValidState(st1, i) && CursorOk(st1, cur1, i)
    {
      assert ValidState(st, i) && CursorOk(st, cur, i);
    }
  }

  /** The spaces the states listen to. */
  ghost function Spaces(st: seq<State>): set<EventSpace>
  {
    set i | 0 <= i < |st| :: st[i].space
  }

  ghost predicate SpacesValid(st: seq<State>)
    reads Spaces(st)
  {
    forall i :: 0 <= i < |st| ==> st[i].space.Valid()
  }

  /** True when some inner state has been added (see the findings on `hasInternalState`). */
  predicate HasInternalState(x: State)
  {
    x.innerIndex > 0
  }

  /** The first-added inner state, which every reset makes active. */
  function Entry(x: State): Option<nat>
  {
    if x.innerIndex > 0 && |x.inner| > 0 then x.inner[0] else None
  }

  /** The inner state the single-region variant delegates to: the cursor, or the entry if there is none yet. */
  function ActiveChild(x: State, c: Option<nat>): Option<nat>
  {
    if x.innerIndex == 0 then None else if c.Some? then c else Entry(x)
  }

  /** The first non-null slot: where the orthogonal variant sends a delegated event. */
  function FirstRegion(slots: seq<Option<nat>>): (r: Option<nat>)
    ensures r.Some? <==> exists k :: 0 <= k < |slots| && slots[k].Some?
    ensures r.Some? ==> r in slots
  {
    if slots == [] then None
    else if slots[0].Some? then slots[0]
    else
      assert forall k :: 1 <= k < |slots| ==> slots[1..][k - 1] == slots[k];
      FirstRegion(slots[1..])
  }

  /** A non-null slot preceded only by null slots is the first region. */
  lemma {:induction false} FirstRegionAt(slots: seq<Option<nat>>, k: nat)
    requires k < |slots| && slots[k].Some?
    requires forall j :: 0 <= j < k ==> slots[j].None?
    ensures FirstRegion(slots) == slots[k]
  {
    if k > 0 {
      FirstRegionAt(slots[1..], k - 1);
    }
  }

  /** The inner state a delegated event goes to, in either variant. */
  function Delegatee(x: State, c: Option<nat>): Option<nat>
  {
    if x.ortho then FirstRegion(x.inner) else ActiveChild(x, c)
  }

  lemma DelegateeBelow(st: seq<State>, cur: Cursors, s: nat)
    requires Shape(st) && CursorsOk(st, cur) && s < |st|
    ensures Delegatee(st[s], cur[s]).Some? ==>
      Delegatee(st[s], cur[s]).value < |st| && Level(st, Delegatee(st[s], cur[s]).value) < Level(st, s)
      && st[s].innerIndex > 0
  {
    var x := st[s];
    assert ValidState(st, s) && CursorOk(st, cur, s);
    if x.ortho {
      var r := FirstRegion(x.inner);
      if r.Some? {
        var k :| 0 <= k < |x.inner| && x.inner[k] == r;
      }
    }
  }

  /** Sets the cursor of `s` to a state ranked below it. */
  function SetCursor(st: seq<State>, cur: Cursors, s: nat, c: Option<nat>): (r: Cursors)
    requires Shape(st) && CursorsOk(st, cur) && s < |st|
    requires c.Some? ==> c.value < |st| && Level(st, c.value) < Level(st, s) && st[s].innerIndex > 0
    ensures CursorsOk(st, r) && r == cur[s := c]
  {
    var r := cur[s := c];
    assert forall i :: 0 <= i < |r| ==> CursorOk(st, r, i) by {
      forall i | 0 <= i < |r| ensures CursorOk(st, r, i) {
        if i != s {
          assert r[i] == cur[i] && CursorOk(st, cur, i);
        }
      }
    }
    r
  }

  // ---------------------------------------------------------------- reset

  /**
   * `resetInternalState`: the cursor of `s` goes back to its entry, then every
   * added inner state is reset in array order.
   */
  ghost function Reset(st: seq<State>, cur: Cursors, s: nat): (r: Cursors)
    requires Shape(st) && CursorsOk(st, cur) && s < |st|
    ensures CursorsOk(st, r)
    decreases Level(st, s), 1, 0
  {
    assert ValidState(st, s);
    if st[s].innerIndex == 0 then cur
    else ResetSlots(st, SetCursor(st, cur, s, Entry(st[s])), s, st[s].innerIndex)
  }

  /** The cursors after resetting the first `k` inner states of `s`, in order. */
  ghost function ResetSlots(st: seq<State>, cur: Cursors, s: nat, k: nat): (r: Cursors)
    requires Shape(st) && CursorsOk(st, cur) && s < |st| && k <= st[s].innerIndex
    ensures CursorsOk(st, r)
    decreases Level(st, s), 0, k
  {
    assert ValidState(st, s);
    if k == 0 then cur
    else Reset(st, ResetSlots(st, cur, s, k - 1), st[s].inner[k - 1].value)
  }

  /**
   * The states reached from `s` through added inner states (its subtree).
   * The cursor is not followed: a reset walks the inner arrays only.
   */
  ghost predicate Below(st: seq<State>, s: nat, i: nat)
    requires Shape(st) && s < |st|
    decreases Level(st, s), 1, 0
  {
    i == s || BelowSlots(st, s, st[s].innerIndex, i)
  }

  /** `i` lies in the subtree of one of the first `k` inner states of `s`. */
  ghost predicate BelowSlots(st: seq<State>, s: nat, k: nat, i: nat)
    requires Shape(st) && s < |st| && k <= st[s].innerIndex
    decreases Level(st, s), 0, k
  {
    assert ValidState(st, s);
    k > 0 && (BelowSlots(st, s, k - 1, i) || Below(st, st[s].inner[k - 1].value, i))
  }

  lemma {:induction false} ResetAt(st: seq<State>, cur: Cursors, s: nat, i: nat)
    requires Shape(st) && CursorsOk(st, cur) && s < |st| && i < |st|
    ensures Reset(st, cur, s)[i] == if Below(st, s, i) then Entry(st[i]) else cur[i]
    decreases Level(st, s), 1
  {
    assert ValidState(st, s);
    if st[s].innerIndex > 0 {
      ResetSlotsAt(st, SetCursor(st, cur, s, Entry(st[s])), s, st[s].innerIndex, i);
    } else {
      assert CursorOk(st, cur, s);
    }
  }

  lemma {:induction false} ResetSlotsAt(st: seq<State>, cur: Cursors, s: nat, k: nat, i: nat)
    requires Shape(st) && CursorsOk(st, cur) && s < |st| && k <= st[s].innerIndex && i < |st|
    ensures ResetSlots(st, cur, s, k)[i] == if BelowSlots(st, s, k, i) then Entry(st[i]) else cur[i]
    decreases Level(st, s), 0, k
  {
    assert ValidState(st, s);
    if k > 0 {
      ResetSlotsAt(st, cur, s, k - 1, i);
      ResetAt(st, ResetSlots(st, cur, s, k - 1), st[s].inner[k - 1].value, i);
    }
  }

  /**
   * After a reset of `s`, every state of its subtree has its entry as cursor,
   * and every other state keeps its cursor.
   */
  lemma ResetEffect(st: seq<State>, cur: Cursors, s: nat)
    requires Shape(st) && CursorsOk(st, cur) && s < |st|
    ensures forall i :: 0 <= i < |st| ==>
      Reset(st, cur, s)[i] == if Below(st, s, i) then Entry(st[i]) else cur[i]
  {
    forall i | 0 <= i < |st|
      ensures Reset(st, cur, s)[i] == if Below(st, s, i) then Entry(st[i]) else cur[i]
    {
      ResetAt(st, cur, s, i);
    }
  }

  // ---------------------------------------------------------------- signalling

  /**
   * `signalEvent(e)` on state `s`: the new cursors and the returned target.
   * A null event changes nothing.  A member of the state's own space looks up
   * the table; a found target resets the subtree of `s`.  Any other event is
   * delegated, the cursor follows a non-null answer, and null is returned.
   */
  ghost function Signal(st: seq<State>, cur: Cursors, s: nat, e: FsmEvent?): (r: (Cursors, Option<nat>))
    requires Shape(st) && SpacesValid(st) && CursorsOk(st, cur) && s < |st|
    reads Spaces(st)
    ensures CursorsOk(st, r.0)
    ensures r.1.Some? ==> r.1.value < |st| && st[r.1.value].space == st[s].space
    decreases Level(st, s), 1
  {
    assert ValidState(st, s);
    if e == null then (cur, None)
    else if e in st[s].space.events then
      assert st[s].space.Valid();
      var t := st[s].table[e.id];
      if t.Some? then (Reset(st, cur, s), t) else (cur, None)
    else
      var d := Delegate(st, cur, s, e);
      (if d.1.Some? then SetCursor(st, d.0, s, d.1) else d.0, None)
  }

  /**
   * The delegation hook: `signalEventToInternalState` of either variant.
   * The answer is the target the inner state returned, ranked below `s`.
   */
  ghost function Delegate(st: seq<State>, cur: Cursors, s: nat, e: FsmEvent): (r: (Cursors, Option<nat>))
    requires Shape(st) && SpacesValid(st) && CursorsOk(st, cur) && s < |st|
    reads Spaces(st)
    ensures CursorsOk(st, r.0)
    ensures r.1.Some? ==> r.1.value < |st| && Level(st, r.1.value) < Level(st, s) && st[s].innerIndex > 0
    decreases Level(st, s), 0
  {
    DelegateeBelow(st, cur, s);
    match Delegatee(st[s], cur[s])
    case None => (cur, None)
    case Some(c) => Signal(st, cur, c, e)
  }

  /** The states a delegated event passes through, from `s` down. */
  ghost function ActivePath(st: seq<State>, cur: Cursors, s: nat): (p: seq<nat>)
    requires Shape(st) && CursorsOk(st, cur) && s < |st|
    ensures |p| > 0 && p[0] == s
    ensures forall i :: 0 <= i < |p| ==> p[i] < |st|
    decreases Level(st, s)
  {
    DelegateeBelow(st, cur, s);
    match Delegatee(st[s], cur[s])
    case None => [s]
    case Some(c) => [s] + ActivePath(st, cur, c)
  }

  /**
   * Null, and an event of no space on the active path, are ignored: the
   * cursors are unchanged and no target is returned.
   */
  lemma {:induction false} ForeignEventIsIgnored(st: seq<State>, cur: Cursors, s: nat, e: FsmEvent?)
    requires Shape(st) && SpacesValid(st) && CursorsOk(st, cur) && s < |st|
    requires e != null ==> forall i :: i in ActivePath(st, cur, s) ==> e !in st[i].space.events
    ensures Signal(st, cur, s, e) == (cur, None)
    decreases Level(st, s)
  {
    if e != null {
      assert e !in st[s].space.events;
      DelegateeBelow(st, cur, s);
      match Delegatee(st[s], cur[s])
      case None =>
      case Some(c) =>
        assert forall i :: i in ActivePath(st, cur, c) ==> i in ActivePath(st, cur, s);
        ForeignEventIsIgnored(st, cur, c, e);
    }
  }

  /**
   * A transition resets the subtree of the state that took it: each of its
   * states is back at its entry, every other cursor is untouched, and the
   * bound target is returned.  Without a bound target nothing changes.
   */
  lemma TransitionResetsSubtree(st: seq<State>, cur: Cursors, s: nat, e: FsmEvent)
    requires Shape(st) && SpacesValid(st) && CursorsOk(st, cur) && s < |st|
    requires e in st[s].space.events
    ensures 0 <= e.id < |st[s].table|
    ensures Signal(st, cur, s, e).1 == st[s].table[e.id]
    ensures st[s].table[e.id].Some? ==> forall i :: 0 <= i < |st| ==>
      Signal(st, cur, s, e).0[i] == if Below(st, s, i) then Entry(st[i]) else cur[i]
    ensures st[s].table[e.id].None? ==> Signal(st, cur, s, e).0 == cur
  {
    assert ValidState(st, s) && st[s].space.Valid();
    if st[s].table[e.id].Some? {
      ResetEffect(st, cur, s);
    }
  }

  /**
   * A delegated event never makes `s` itself transition; the cursor of `s`
   * moves only to a target returned from below, and stays put otherwise.
   */
  lemma DelegatedEventKeepsOwner(st: seq<State>, cur: Cursors, s: nat, e: FsmEvent)
    requires Shape(st) && SpacesValid(st) && CursorsOk(st, cur) && s < |st|
    requires e !in st[s].space.events
    ensures Signal(st, cur, s, e).1.None?
    ensures Delegate(st, cur, s, e).1.Some? ==> Signal(st, cur, s, e).0 == Delegate(st, cur, s, e).0[s := Delegate(st, cur, s, e).1]
    ensures Delegate(st, cur, s, e).1.None? ==> Signal(st, cur, s, e).0 == Delegate(st, cur, s, e).0
  {
  }

  /** Without an inner state the delegation is a no-op in both variants. */
  lemma NoInnerStateNoDelegation(st: seq<State>, cur: Cursors, s: nat, e: FsmEvent)
    requires Shape(st) && SpacesValid(st) && CursorsOk(st, cur) && s < |st|
    requires st[s].innerIndex == 0
    ensures Delegate(st, cur, s, e) == (cur, None)
  {
    assert ValidState(st, s);
    if st[s].ortho {
      assert forall k :: 0 <= k < |st[s].inner| ==> st[s].inner[k].None?;
    }
  }

  /**
   * The orthogonal variant hands a delegated event to its first region only:
   * the answer is that region's, and no other region sees the event.
   */
  lemma OrthoSignalsFirstRegionOnly(st: seq<State>, cur: Cursors, s: nat, e: FsmEvent)
    requires Shape(st) && SpacesValid(st) && CursorsOk(st, cur) && s < |st|
    requires st[s].ortho && st[s].innerIndex > 0
    ensures ValidState(st, s)
    ensures Delegate(st, cur, s, e) == Signal(st, cur, st[s].inner[0].value, e)
  {
    assert ValidState(st, s);
    FirstRegionAt(st[s].inner, 0);
  }

  // ---------------------------------------------------------------- actions

  /**
   * The trace of `performAction` on `s`: the actions of the active inner
   * state (or of every region, in array order, for the orthogonal variant),
   * then the action of `s` itself, which a concrete state performs after
   * calling the base implementation.
   */
  ghost function PerformTrace(st: seq<State>, cur: Cursors, s: nat): (t: seq<nat>)
    requires Shape(st) && CursorsOk(st, cur) && s < |st|
    ensures |t| > 0 && t[|t| - 1] == s
    decreases Level(st, s), 2, 0
  {
    assert ValidState(st, s) && CursorOk(st, cur, s);
    (if st[s].ortho then RegionsTrace(st, cur, s, |st[s].inner|)
     else match ActiveChild(st[s], cur[s])
          case None => []
          case Some(c) => PerformTrace(st, cur, c))
    + [s]
  }

  /** The traces of the non-null regions among the first `k` slots of `s`, in order. */
  ghost function RegionsTrace(st: seq<State>, cur: Cursors, s: nat, k: nat): seq<nat>
    requires Shape(st) && CursorsOk(st, cur) && s < |st| && k <= |st[s].inner|
    decreases Level(st, s), 1, k
  {
    if k == 0 then [] else RegionsTrace(st, cur, s, k - 1) + SlotTrace(st, cur, s, k - 1)
  }

  /** The trace of the region in slot `k` of `s`; nothing for a null slot. */
  ghost function SlotTrace(st: seq<State>, cur: Cursors, s: nat, k: nat): seq<nat>
    requires Shape(st) && CursorsOk(st, cur) && s < |st| && k < |st[s].inner|
    decreases Level(st, s), 0, k
  {
    assert ValidState(st, s);
    match st[s].inner[k]
    case None => []
    case Some(c) => PerformTrace(st, cur, c)
  }

  function Reverse(p: seq<nat>): (r: seq<nat>)
    ensures |r| == |p|
    ensures forall i :: 0 <= i < |p| ==> r[i] == p[|p| - 1 - i]
  {
    if p == [] then [] else Reverse(p[1..]) + [p[0]]
  }

  /** No orthogonal state on the active path of `s`. */
  ghost predicate SingleRegionPath(st: seq<State>, cur: Cursors, s: nat)
    requires Shape(st) && CursorsOk(st, cur) && s < |st|
  {
    forall i :: i in ActivePath(st, cur, s) ==> !st[i].ortho
  }

  /**
   * Through single-region states, `performAction` runs the actions of the
   * active path from the deepest state up to `s`.
   */
  lemma {:induction false} PerformFollowsActivePath(st: seq<State>, cur: Cursors, s: nat)
    requires Shape(st) && CursorsOk(st, cur) && s < |st| && SingleRegionPath(st, cur, s)
    ensures PerformTrace(st, cur, s) == Reverse(ActivePath(st, cur, s))
    decreases Level(st, s)
  {
    DelegateeBelow(st, cur, s);
    match ActiveChild(st[s], cur[s])
    case None =>
    case Some(c) =>
      assert forall i :: i in ActivePath(st, cur, c) ==> i in ActivePath(st, cur, s);
      PerformFollowsActivePath(st, cur, c);
      assert ActivePath(st, cur, s) == [s] + ActivePath(st, cur, c);
  }

  /** Every added region of an orthogonal state acts before the state's own action. */
  lemma OrthoPerformReachesEveryRegion(st: seq<State>, cur: Cursors, s: nat)
    requires Shape(st) && CursorsOk(st, cur) && s < |st| && st[s].ortho
    ensures forall k :: 0 <= k < st[s].innerIndex <= |st[s].inner| && st[s].inner[k].Some? ==>
      st[s].inner[k].value in PerformTrace(st, cur, s)[..|PerformTrace(st, cur, s)| - 1]
  {
    assert ValidState(st, s);
    var t := PerformTrace(st, cur, s);
    assert t[..|t| - 1] == RegionsTrace(st, cur, s, |st[s].inner|);
    forall k | 0 <= k < st[s].innerIndex
      ensures st[s].inner[k].value in t[..|t| - 1]
    {
      RegionsTraceContains(st, cur, s, k, |st[s].inner|);
    }
  }

  lemma {:induction false} RegionsTraceContains(st: seq<State>, cur: Cursors, s: nat, j: nat, k: nat)
    requires Shape(st) && CursorsOk(st, cur) && s < |st| && k <= |st[s].inner| && j < k && j < st[s].innerIndex
    ensures ValidState(st, s) && st[s].inner[j].value in RegionsTrace(st, cur, s, k)
    decreases k
  {
    assert ValidState(st, s);
    if j < k - 1 {
      RegionsTraceContains(st, cur, s, j, k - 1);
    } else {
      var t := PerformTrace(st, cur, st[s].inner[j].value);
      assert t == SlotTrace(st, cur, s, j);
      assert t[|t| - 1] in t;
    }
  }
}
