/**
 * The nested machine of the touch joystick (`JoystickFsm` in
 * controls/Joystick.java), wired on the engine of module `Hfsm`.
 *
 * The host state listens to an event space with no events and hosts the three
 * worker states Idle, InBoundary and OnBoundary, which listen to the four
 * joystick events.  Every event therefore reaches the active worker.
 */
module JoystickFsm {
  import opened Common
  import opened Events
  import opened HfsmSpec
  import opened Hfsm

  /** The four joystick events, with the ids the widget declares for them. */
  datatype JoyEvent = Grip | Release | InBoundary | OnBoundary
  {
    function Id(): nat
    {
      match this
      case Grip => 0
      case Release => 1
      case InBoundary => 2
      case OnBoundary => 3
    }
  }

  const EV_SPACE_SIZE: int := 4

  /** Arena indices of the host and of the three workers. */
  const HOST: nat := 0
  const IDLE: nat := 1
  const IN_BOUNDARY: nat := 2
  const ON_BOUNDARY: nat := 3

  predicate IsWorker(w: nat)
  {
    w == IDLE || w == IN_BOUNDARY || w == ON_BOUNDARY
  }

  /**
   * The joystick's state chart: Idle goes to InBoundary on a grip;
   * InBoundary goes to Idle on a release and to OnBoundary on reaching the
   * boundary; OnBoundary goes to Idle on a release and back to InBoundary on
   * moving inside.  Any other event leaves the worker where it is.
   */
  function Step(w: nat, ev: JoyEvent): (r: nat)
    requires IsWorker(w)
    ensures IsWorker(r)
  {
    if w == IDLE then (if ev == Grip then IN_BOUNDARY else IDLE)
    else if w == IN_BOUNDARY then
      (if ev == Release then IDLE else if ev == OnBoundary then ON_BOUNDARY else IN_BOUNDARY)
    else (if ev == Release then IDLE else if ev == InBoundary then IN_BOUNDARY else ON_BOUNDARY)
  }

  /** The transition tables the bindings produce, indexed by event id. */
  function Table(w: nat): seq<Option<nat>>
  {
    if w == IDLE then [Some(IN_BOUNDARY), None, None, None]
    else if w == IN_BOUNDARY then [None, Some(IDLE), None, Some(ON_BOUNDARY)]
    else [None, Some(IDLE), Some(IN_BOUNDARY), None]
  }

  /** The arena the wiring builds. */
  function Wired(hostSpace: EventSpace, joySpace: EventSpace): seq<State>
  {
    [ State("Joystick", hostSpace, false, [], [Some(IDLE)], 1),
      State("Idle", joySpace, false, Table(IDLE), [], 0),
      State("In Boundary", joySpace, false, Table(IN_BOUNDARY), [], 0),
      State("On Boundary", joySpace, false, Table(ON_BOUNDARY), [], 0) ]
  }

  /** The arena before any binding: all tables empty. */
  function Unbound(hostSpace: EventSpace, joySpace: EventSpace): seq<State>
  {
    var empty := [None, None, None, None];
    [ State("Joystick", hostSpace, false, [], [Some(IDLE)], 1),
      State("Idle", joySpace, false, empty, [], 0),
      State("In Boundary", joySpace, false, empty, [], 0),
      State("On Boundary", joySpace, false, empty, [], 0) ]
  }

  /** The wiring's tables are the state chart: a bound slot holds `Step`'s answer. */
  lemma TableIsStep(w: nat, ev: JoyEvent)
    requires IsWorker(w)
    ensures Table(w)[ev.Id()].Some? <==> Step(w, ev) != w
    ensures Table(w)[ev.Id()].Some? ==> Table(w)[ev.Id()].value == Step(w, ev)
  {
  }

  class Fsm {
    const machine: Machine
    const hostSpace: EventSpace
    const joySpace: EventSpace
    const grip: FsmEvent
    const release: FsmEvent
    const inBoundary: FsmEvent
    const onBoundary: FsmEvent

    function EventOf(ev: JoyEvent): FsmEvent
    {
      match ev
      case Grip => grip
      case Release => release
      case InBoundary => inBoundary
      case OnBoundary => onBoundary
    }

    ghost predicate Valid()
      reads machine`states, machine`cursors, hostSpace, joySpace
    {
      && machine.Valid()
      && hostSpace != joySpace && hostSpace.Valid() && joySpace.Valid()
      && hostSpace.events == {} && joySpace.size == EV_SPACE_SIZE
      && joySpace.events == {grip, release, inBoundary, onBoundary}
      && grip.id == 0 && release.id == 1 && inBoundary.id == 2 && onBoundary.id == 3
      && machine.states == Wired(hostSpace, joySpace)
      && |machine.cursors| == 4
      && machine.cursors[HOST].Some? && IsWorker(machine.cursors[HOST].value)
      && machine.cursors[IDLE] == machine.cursors[IN_BOUNDARY] == machine.cursors[ON_BOUNDARY] == None
    }

    /** The worker whose action runs: the host's cursor. */
    ghost function Active(): nat
      reads machine`states, machine`cursors, hostSpace, joySpace
      requires Valid()
    {
      machine.cursors[HOST].value
    }

    /**
     * The `JoystickFsm` constructor: the spaces, the four events, the host
     * with Idle as its entry substate, and the five bindings.
     */
    constructor()
      ensures Valid() && Active() == IDLE
      ensures fresh(machine) && fresh(hostSpace) && fresh(joySpace)
    {
      var m := new Machine();
      var hs := new EventSpace(0, 1);
      var js := new EventSpace(EV_SPACE_SIZE, 0);
      var g, rl, ib, ob := MintEvents(js);
      AddStates(m, hs, js);
      BindTransitions(m, hs, js, g, rl, ib, ob);
      machine, hostSpace, joySpace := m, hs, js;
      grip, release, inBoundary, onBoundary := g, rl, ib, ob;
    }

    /**
     * `signalEvent` on the host: the active worker moves as the state chart
     * says, and the host itself never transitions.
     */
    method Signal(ev: JoyEvent) returns (t: Option<nat>)
      requires Valid()
      modifies machine`cursors
      ensures Valid()
      ensures t == None
      ensures Active() == Step(old(Active()), ev)
    {
      var w := machine.cursors[HOST].value;
      assert SpacesValid(machine.states);
      t := machine.SignalEvent(HOST, EventOf(ev));
      SignalOnWorker(hostSpace, joySpace, old(machine.cursors), w, EventOf(ev), ev);
    }

    /**
     * `performAction` on the host: the active worker acts, then the host.
     * The returned worker is the one whose action ran.
     */
    method PerformAction() returns (w: nat)
      requires Valid()
      modifies machine`trace
      ensures Valid() && w == Active()
      ensures machine.trace == old(machine.trace) + [w, HOST]
    {
      w := machine.cursors[HOST].value;
      machine.PerformAction(HOST);
      assert PerformTrace(machine.states, machine.cursors, w) == [w];
    }
  }

  /**
   * The four events, minted in id order under the names the source gives
   * them: the event with id 2 (fired on re-entering the boundary) is named
   * "OnBoundary" and the one with id 3 (fired on reaching it) "InBoundary".
   */
  method MintEvents(js: EventSpace) returns (g: FsmEvent, rl: FsmEvent, ib: FsmEvent, ob: FsmEvent)
    requires js.Valid() && js.size == EV_SPACE_SIZE && js.next == 0 && js.events == {}
    modifies js
    ensures js.Valid() && js.size == EV_SPACE_SIZE && js.events == {g, rl, ib, ob}
    ensures g.id == 0 && rl.id == 1 && ib.id == 2 && ob.id == 3
    ensures g.name == "Grip" && rl.name == "Release" && ib.name == "OnBoundary" && ob.name == "InBoundary"
  {
    var r0 := js.NewEvent("Grip");
    var r1 := js.NewEvent("Release");
    var r2 := js.NewEvent("OnBoundary");
    var r3 := js.NewEvent("InBoundary");
    g, rl, ib, ob := r0.value, r1.value, r2.value, r3.value;
  }

  /** The host, with Idle as entry substate, and the three workers. */
  method AddStates(m: Machine, hs: EventSpace, js: EventSpace)
    requires m.Valid() && m.states == [] && m.cursors == []
    requires hs != js && hs.Valid() && js.Valid() && hs.size == 0 && js.size == EV_SPACE_SIZE
    requires hs.level == 1 && js.level == 0
    modifies m
    ensures m.Valid() && m.cursors == [Some(IDLE), None, None, None]
    ensures m.states == Unbound(hs, js)
  {
    HostBeforeEntry();
    var h := m.NewState("Joystick", hs, 1, false);
    ghost var host := m.states[HOST];
    assert host == State("Joystick", hs, false, [], [None], 0);
    NewWorkers(m, js);
    assert m.states == [host] + Unbound(js, js)[IDLE..];
    var a := m.AddStateToInternalFsm(HOST, IDLE);
    UnboundParts(hs, js, host);
  }

  lemma HostBeforeEntry()
    ensures Nulls(0) == [] && Nulls(1) == [None]
  {
  }

  lemma UnboundParts(hs: EventSpace, js: EventSpace, host: State)
    requires host == State("Joystick", hs, false, [], [None], 0)
    ensures var u := Unbound(hs, js);
      ([host] + Unbound(js, js)[IDLE..])[HOST := host.(inner := host.inner[0 := Some(IDLE)], innerIndex := 1)] == u
  {
    var l := ([host] + Unbound(js, js)[IDLE..])[HOST := host.(inner := host.inner[0 := Some(IDLE)], innerIndex := 1)];
    assert |l| == 4 && l[0] == Unbound(hs, js)[0];
    assert forall k :: 1 <= k < 4 ==> l[k] == Unbound(js, js)[k] == Unbound(hs, js)[k];
  }

  /** The three workers, which host no inner state. */
  method NewWorkers(m: Machine, js: EventSpace)
    requires m.Valid() && js.Valid() && js.size == EV_SPACE_SIZE
    modifies m
    ensures m.Valid() && m.cursors == old(m.cursors) + [None, None, None]
    ensures m.states == old(m.states) + Unbound(js, js)[IDLE..]
  {
    assert Nulls(0) == [] && Nulls(EV_SPACE_SIZE) == [None, None, None, None];
    var i := m.NewState("Idle", js, 0, false);
    var ins := m.NewState("In Boundary", js, 0, false);
    var ons := m.NewState("On Boundary", js, 0, false);
  }

  /** The five bindings of the state chart. */
  method BindTransitions(m: Machine, hs: EventSpace, js: EventSpace, g: FsmEvent, rl: FsmEvent, ib: FsmEvent, ob: FsmEvent)
    requires m.Valid() && hs != js && js.Valid() && js.events == {g, rl, ib, ob}
    requires g.id == 0 && rl.id == 1 && ib.id == 2 && ob.id == 3
    requires m.states == Unbound(hs, js)
    modifies m`states
    ensures m.Valid()
    ensures m.states == Wired(hs, js)
  {
    BoundTables(hs, js);
    var b0 := m.BindEventToTransition(IDLE, IN_BOUNDARY, g);
    BindWorker(m, js, IN_BOUNDARY, rl, IDLE, ob, ON_BOUNDARY);
    BindWorker(m, js, ON_BOUNDARY, rl, IDLE, ib, IN_BOUNDARY);
    assert forall k :: 0 <= k < 4 ==> m.states[k] == Wired(hs, js)[k];
  }

  /** Two bindings on one worker. */
  method BindWorker(m: Machine, js: EventSpace, w: nat, e1: FsmEvent, t1: nat, e2: FsmEvent, t2: nat)
    requires m.Valid() && js.Valid() && e1 in js.events && e2 in js.events
    requires w < |m.states| && t1 < |m.states| && t2 < |m.states|
    requires m.states[w].space == m.states[t1].space == m.states[t2].space == js
    modifies m`states
    ensures m.Valid()
    ensures 0 <= e1.id < |old(m.states)[w].table| && 0 <= e2.id < |old(m.states)[w].table|
    ensures m.states == old(m.states)[w := old(m.states)[w].(table := old(m.states)[w].table[e1.id := Some(t1)][e2.id := Some(t2)])]
  {
    var b1 := m.BindEventToTransition(w, t1, e1);
    var b2 := m.BindEventToTransition(w, t2, e2);
  }

  lemma BoundTables(hs: EventSpace, js: EventSpace)
    ensures var u := Unbound(hs, js);
      && u[IDLE].table[0 := Some(IN_BOUNDARY)] == Table(IDLE)
      && u[IN_BOUNDARY].table[1 := Some(IDLE)][3 := Some(ON_BOUNDARY)] == Table(IN_BOUNDARY)
      && u[ON_BOUNDARY].table[1 := Some(IDLE)][2 := Some(IN_BOUNDARY)] == Table(ON_BOUNDARY)
  {
  }

  /** How the engine's `Signal` evaluates a joystick event on the wired arena. */
  lemma SignalOnWorker(hs: EventSpace, js: EventSpace, cur: Cursors, w: nat, e: FsmEvent, ev: JoyEvent)
    requires hs != js && hs.Valid() && js.Valid() && hs.events == {} && e in js.events && e.id == ev.Id()
    requires Shape(Wired(hs, js)) && SpacesValid(Wired(hs, js)) && CursorsOk(Wired(hs, js), cur)
    requires |cur| == 4 && cur[HOST] == Some(w) && IsWorker(w) && cur[IDLE] == cur[IN_BOUNDARY] == cur[ON_BOUNDARY] == None
    ensures Signal(Wired(hs, js), cur, HOST, e) == (cur[HOST := Some(Step(w, ev))], None)
  {
    TableIsStep(w, ev);
    var st := Wired(hs, js);
    assert st[w].space == js && st[w].table == Table(w) && st[w].innerIndex == 0;
    assert Delegatee(st[HOST], cur[HOST]) == Some(w);
    assert Signal(st, cur, w, e) == (cur, Table(w)[e.id]);
    assert Delegate(st, cur, HOST, e) == (cur, Table(w)[e.id]);
    if Table(w)[e.id].None? {
      assert cur[HOST := Some(w)] == cur;
    }
  }

  /**
   * A grip, a move inside the boundary, and a move onto it bring the
   * joystick to OnBoundary; the move inside leaves InBoundary active.
   */
  method GripThenReachBoundary() returns (f: Fsm)
    ensures f.Valid() && f.Active() == ON_BOUNDARY
  {
    f := new Fsm();
    var t := f.Signal(Grip);
    assert f.Active() == IN_BOUNDARY;
    t := f.Signal(InBoundary);
    assert f.Active() == IN_BOUNDARY;
    t := f.Signal(OnBoundary);
  }
}
