/**
 * The touch handling of the joystick widget (controls/Joystick.java): the
 * widget's state, `onTouchEvent`, the worker actions that move the tracker,
 * and the notices it sends its listener.
 *
 * The listener is modelled by whether one is set and by the sequence of
 * notices it has received; drawing is left to the view and not modelled.
 */
module Widget {
  import opened Common
  import opened JavaInt
  import opened HfsmSpec
  import opened Hfsm
  import opened JoystickFsm
  import opened Controls

  /** A call the widget makes on its listener. */
  datatype Notice =
    | StartTracking
    | TrackerHitBoundary
    | TrackerLeaveBoundary
    | ReleaseTracking
    | SubChanValChanged(subchannel: int, value: int)

  /** The sizes and position of the widget in its view, in pixels. */
  datatype Geometry = Geometry(trkrRad: int, baseRad: int, cenX: int, cenY: int)

  /** What the widget remembers between touches; `worker` is the joystick machine's active worker. */
  datatype View = View(worker: nat, posX: int, posY: int, xCache: int, yCache: int,
                       processing: bool, notices: seq<Notice>)

  /**
   * The notices a worker's `signalEvent` override sends when the event
   * takes it elsewhere: Idle announces the start of tracking, InBoundary a
   * hit on the boundary or a release, OnBoundary leaving the boundary and,
   * on a release, the release as well.
   */
  function TransitionNotices(w: nat, ev: JoyEvent): (r: seq<Notice>)
    requires IsWorker(w)
    ensures Step(w, ev) == w ==> r == []
    ensures ReleaseTracking in r <==> w != IDLE && ev == Release
  {
    var t := Step(w, ev);
    if w == IDLE then (if t == IN_BOUNDARY then [StartTracking] else [])
    else if w == IN_BOUNDARY then
      (if t == ON_BOUNDARY then [TrackerHitBoundary] else if t == IDLE then [ReleaseTracking] else [])
    else (if t != w then [TrackerLeaveBoundary] else []) + (if t == IDLE then [ReleaseTracking] else [])
  }

  /** The sub-channel notices for a tracker that moved from the cached position, with the values of `vec`. */
  function SubChanNotices(x: int, y: int, xCache: int, yCache: int, vec: seq<int>): seq<Notice>
    requires |vec| == NUM_OF_SUBCHANS
  {
    (if x != xCache then [SubChanValChanged(0, vec[0])] else [])
    + (if y != yCache then [SubChanValChanged(1, vec[1])] else [])
  }

  /** One notice per changed sub-channel, carrying that sub-channel's value. */
  lemma SubChanNoticesFollowChanges(x: int, y: int, xCache: int, yCache: int, vec: seq<int>)
    requires |vec| == NUM_OF_SUBCHANS
    ensures var ch, ns := SubChanChanges(x, y, xCache, yCache), SubChanNotices(x, y, xCache, yCache, vec);
      |ns| == |ch| && forall i :: 0 <= i < |ns| ==> 0 <= ch[i] < NUM_OF_SUBCHANS && ns[i] == SubChanValChanged(ch[i], vec[ch[i]])
  {
  }

  /**
   * `signalSubChanChange` with each sub-channel compared with its own
   * cache: nothing without a listener, the division by zero of the scaling
   * when the travel radius is 0, and otherwise the notices.
   */
  function SubChanSignal(listener: bool, x: int, y: int, xCache: int, yCache: int, g: Geometry): Result<seq<Notice>>
  {
    if !listener then Success([])
    else match SubChanVector(x, y, g.cenX, g.cenY, g.baseRad)
      case Failure(e) => Failure(e)
      case Success(v) => Success(SubChanNotices(x, y, xCache, yCache, v))
  }

  /**
   * Where the action of worker `w` puts the tracker for a touch at (x, y):
   * Idle centres it, InBoundary follows the finger, and OnBoundary projects
   * the touch onto the travel circle.  `mag` is `(int) Math.sqrt(dx*dx + dy*dy)`
   * for the touch's offset (dx, dy), which the caller supplies.
   */
  function Track(g: Geometry, w: nat, x: int, y: int, mag: int): Result<(int, int)>
    requires IsWorker(w)
  {
    if w == IDLE then Success((g.cenX, g.cenY))
    else if w == IN_BOUNDARY then Success((x, y))
    else if mag == 0 then Failure(Arithmetic)
    else
      var dx, dy := Sub(x, g.cenX), Sub(y, g.cenY);
      var t := TravelRad(g.baseRad);
      Success((Add(Div(Mul(dx, t), mag), g.cenX), Add(Div(Mul(dy, t), mag), g.cenY)))
  }

  /** Whether `onTouchEvent` takes up a touch: the widget is enabled and idle, or the touch releases. */
  predicate Accepts(enabled: bool, processing: bool, ev: JoyEvent)
  {
    enabled && (!processing || ev == Release)
  }

  /**
   * `onTouchEvent`: the new view and the answer (or the exception that
   * escapes) for a touch with Android action `action` at (x, y).
   */
  function Respond(v: View, g: Geometry, enabled: bool, listener: bool, action: int, x: int, y: int, mag: int): (View, Result<bool>)
    requires IsWorker(v.worker)
  {
    var ev := EvaluateEvent(action, x, y, g.cenX, g.cenY, g.trkrRad, g.baseRad);
    if !Accepts(enabled, v.processing, ev) then (v, Success(false))
    else
      var signalled := v.(worker := Step(v.worker, ev), processing := true,
                          notices := v.notices + if listener then TransitionNotices(v.worker, ev) else []);
      Finish(signalled, g, listener, ev, action, x, y, mag)
  }

  /**
   * The rest of an accepted touch, once the machine has taken the event:
   * the worker's action, the sub-channel notices, and the answer.
   */
  function Finish(v: View, g: Geometry, listener: bool, ev: JoyEvent, action: int, x: int, y: int, mag: int): (View, Result<bool>)
    requires IsWorker(v.worker)
  {
    match Track(g, v.worker, x, y, mag)
    case Failure(e) => (v, Failure(e))
    case Success(pos) =>
      Settle(v.(posX := pos.0, posY := pos.1), SubChanSignal(listener, pos.0, pos.1, v.xCache, v.yCache, g), ev, action)
  }

  /**
   * The end of an accepted touch whose tracker has moved, given what the
   * sub-channel signalling produced: an escaping exception, or the end of
   * processing with the answer and, unless the press missed, a new cache.
   */
  function Settle(moved: View, signal: Result<seq<Notice>>, ev: JoyEvent, action: int): (View, Result<bool>)
  {
    match signal
    case Failure(e) => (moved, Failure(e))
    case Success(ns) =>
      var done := moved.(processing := false, notices := moved.notices + ns);
      if action == ACTION_DOWN && ev != Grip then (done, Success(false))
      else (done.(xCache := moved.posX, yCache := moved.posY), Success(true))
  }

  class Joystick {
    const fsm: Fsm
    const geom: Geometry
    var enabled: bool
    var hasListener: bool
    var initialCentered: bool
    var isProcessing: bool
    var trkrPosX: int
    var trkrPosY: int
    var trkrPosXCache: int
    var trkrPosYCache: int
    var notices: seq<Notice>

    ghost predicate Valid()
      reads fsm.machine`states, fsm.machine`cursors, fsm.hostSpace, fsm.joySpace
    {
      fsm.Valid()
    }

    ghost function Snapshot(): View
      reads this, fsm.machine`states, fsm.machine`cursors, fsm.hostSpace, fsm.joySpace
      requires Valid()
    {
      View(fsm.Active(), trkrPosX, trkrPosY, trkrPosXCache, trkrPosYCache, isProcessing, notices)
    }

    /** A new widget: enabled, without a listener, its machine in Idle. */
    constructor(g: Geometry)
      ensures Valid() && geom == g && fresh(fsm)
      ensures Snapshot() == View(IDLE, 0, 0, 0, 0, false, [])
      ensures enabled && !hasListener && !initialCentered
    {
      fsm := new Fsm();
      geom := g;
      enabled, hasListener, initialCentered, isProcessing := true, false, false, false;
      trkrPosX, trkrPosY, trkrPosXCache, trkrPosYCache := 0, 0, 0, 0;
      notices := [];
    }

    /** `setTouchable`. */
    method SetTouchable(touchable: bool)
      modifies this`enabled
      ensures enabled == touchable
    {
      enabled := touchable;
    }

    /** `setControlInputListener`, with `present` telling whether the listener is non-null. */
    method SetControlInputListener(present: bool)
      modifies this`hasListener
      ensures hasListener == present
    {
      hasListener := present;
    }

    /** The first `onDraw` centres the tracker; later draws leave it where it is. */
    method OnDraw()
      modifies this`trkrPosX, this`trkrPosY, this`initialCentered
      ensures initialCentered
      ensures if old(initialCentered) then trkrPosX == old(trkrPosX) && trkrPosY == old(trkrPosY)
              else trkrPosX == geom.cenX && trkrPosY == geom.cenY
    {
      if !initialCentered {
        trkrPosX, trkrPosY := geom.cenX, geom.cenY;
        initialCentered := true;
      }
    }

    /** `getSubChanVal`, reading sub-channels 0 and 1 of the tracker's current position. */
    method GetSubChanVal(subchannel: int) returns (r: Result<int>)
      ensures r == SubChanValue(subchannel, SubChanVector(trkrPosX, trkrPosY, geom.cenX, geom.cenY, geom.baseRad))
    {
      if 0 <= subchannel < NUM_OF_SUBCHANS {
        var vec := ToSubChanRefFrame(trkrPosX, trkrPosY, geom.cenX, geom.cenY, geom.baseRad);
        match vec
        case Failure(e) => r := Failure(e);
        case Success(v) => r := Success(v[subchannel]);
      } else {
        r := Failure(IndexOutOfBounds);
      }
    }

    /** `signalSubChanChange`: tells the listener about each sub-channel whose coordinate left its cache. */
    method SignalSubChanChange() returns (o: Outcome)
      modifies this`notices
      ensures var s := SubChanSignal(hasListener, trkrPosX, trkrPosY, trkrPosXCache, trkrPosYCache, geom);
        && (s.Success? ==> o == Pass && notices == old(notices) + s.value)
        && (s.Failure? ==> o == Fail(s.error) && notices == old(notices))
    {
      if hasListener {
        var chanVal := ToSubChanRefFrame(trkrPosX, trkrPosY, geom.cenX, geom.cenY, geom.baseRad);
        if chanVal.Failure? {
          return Fail(chanVal.error);
        }
        if trkrPosX != trkrPosXCache {
          notices := notices + [SubChanValChanged(0, chanVal.value[0])];
        }
        if trkrPosY != trkrPosYCache {
          notices := notices + [SubChanValChanged(1, chanVal.value[1])];
        }
      }
      o := Pass;
    }

    /** The action of worker `w`: `releaseTracker`, `inBoundaryTrack` or `onBoundaryTrack`. */
    method RunWorkerAction(w: nat, x: int, y: int, mag: int) returns (o: Outcome)
      requires IsWorker(w)
      modifies this`trkrPosX, this`trkrPosY, this`notices
      ensures match Track(geom, w, x, y, mag)
        case Failure(e) => o == Fail(e) && trkrPosX == old(trkrPosX) && trkrPosY == old(trkrPosY) && notices == old(notices)
        case Success(pos) =>
          && (trkrPosX, trkrPosY) == pos
          && var s := SubChanSignal(hasListener, pos.0, pos.1, trkrPosXCache, trkrPosYCache, geom);
          && (s.Success? ==> o == Pass && notices == old(notices) + s.value)
          && (s.Failure? ==> o == Fail(s.error) && notices == old(notices))
    {
      if w == IDLE {
        trkrPosX, trkrPosY := geom.cenX, geom.cenY;
      } else if w == IN_BOUNDARY {
        trkrPosX, trkrPosY := x, y;
      } else {
        var dx := Sub(x, geom.cenX);
        var dy := Sub(y, geom.cenY);
        if mag == 0 {
          return Fail(Arithmetic);
        }
        trkrPosX := Add(Div(Mul(dx, TravelRad(geom.baseRad)), mag), geom.cenX);
        trkrPosY := Add(Div(Mul(dy, TravelRad(geom.baseRad)), mag), geom.cenY);
      }
      o := SignalSubChanChange();
    }

    /**
     * `onTouchEvent` for a touch with Android action `action` at (x, y);
     * `mag` is the integer square root the on-boundary action uses.
     */
    method OnTouchEvent(action: int, x: int, y: int, mag: int) returns (r: Result<bool>)
      requires Valid()
      modifies this`isProcessing, this`trkrPosX, this`trkrPosY, this`trkrPosXCache, this`trkrPosYCache, this`notices
      modifies fsm.machine
      ensures Valid()
      ensures (Snapshot(), r) == Respond(old(Snapshot()), geom, enabled, hasListener, action, x, y, mag)
    {
      var ev := EvaluateEvent(action, x, y, geom.cenX, geom.cenY, geom.trkrRad, geom.baseRad);
      if !(enabled && (!isProcessing || ev == Release)) {
        return Success(false);
      }
      TakeEvent(ev);
      r := FinishTouch(ev, action, x, y, mag);
    }

    /** The part of `onTouchEvent` that hands an accepted event to the machine. */
    method TakeEvent(ev: JoyEvent)
      requires Valid()
      modifies this`isProcessing, this`notices, fsm.machine`cursors
      ensures Valid()
      ensures var v := old(Snapshot());
        Snapshot() == v.(worker := Step(v.worker, ev), processing := true,
                         notices := v.notices + if hasListener then TransitionNotices(v.worker, ev) else [])
    {
      isProcessing := true;
      var w0 := fsm.machine.cursors[HOST].value;
      var _ := fsm.Signal(ev);
      if hasListener {
        notices := notices + TransitionNotices(w0, ev);
      }
    }

    /** The part of `onTouchEvent` after the machine took the event: the action and the answer. */
    method FinishTouch(ev: JoyEvent, action: int, x: int, y: int, mag: int) returns (r: Result<bool>)
      requires Valid()
      modifies this`isProcessing, this`trkrPosX, this`trkrPosY, this`trkrPosXCache, this`trkrPosYCache, this`notices
      modifies fsm.machine`trace
      ensures Valid()
      ensures (Snapshot(), r) == Finish(old(Snapshot()), geom, hasListener, ev, action, x, y, mag)
    {
      ghost var v := Snapshot();
      var w := fsm.PerformAction();
      assert Snapshot() == v;
      var o := RunWorkerAction(w, x, y, mag);
      ghost var track := Track(geom, w, x, y, mag);
      ghost var before := if track.Failure? then v else v.(posX := track.value.0, posY := track.value.1);
      ghost var signal := if track.Failure? then Failure(track.error)
                          else SubChanSignal(hasListener, track.value.0, track.value.1, trkrPosXCache, trkrPosYCache, geom);
      assert Finish(v, geom, hasListener, ev, action, x, y, mag) == Settle(before, signal, ev, action);
      r := SettleTouch(o, ev, action, before, signal);
    }

    /** The end of `onTouchEvent` once the worker has acted and `o` tells how the signalling went. */
    method SettleTouch(o: Outcome, ev: JoyEvent, action: int, ghost before: View, ghost signal: Result<seq<Notice>>) returns (r: Result<bool>)
      requires Valid()
      requires signal.Success? ==> o == Pass && Snapshot() == before.(notices := before.notices + signal.value)
      requires signal.Failure? ==> o == Fail(signal.error) && Snapshot() == before
      modifies this`isProcessing, this`trkrPosXCache, this`trkrPosYCache
      ensures Valid()
      ensures (Snapshot(), r) == Settle(before, signal, ev, action)
    {
      if o.Fail? {
        return Failure(o.error);
      }
      isProcessing := false;
      if action == ACTION_DOWN && ev != Grip {
        return Success(false);
      }
      trkrPosXCache, trkrPosYCache := trkrPosX, trkrPosY;
      r := Success(true);
    }
  }
}

module WidgetProperties {
  import opened Common
  import opened JavaInt
  import opened JoystickFsm
  import opened Controls
  import opened Widget

  /** The touch that fails: the on-boundary projection with a zero root, or a listener with no travel radius. */
  lemma RespondFailsOnlyOnDivisionByZero(v: View, g: Geometry, enabled: bool, listener: bool, action: int, x: int, y: int, mag: int)
    requires IsWorker(v.worker)
    ensures var ev := EvaluateEvent(action, x, y, g.cenX, g.cenY, g.trkrRad, g.baseRad);
      var r := Respond(v, g, enabled, listener, action, x, y, mag).1;
      && (r.Failure? <==>
            Accepts(enabled, v.processing, ev)
            && ((Step(v.worker, ev) == ON_BOUNDARY && mag == 0) || (listener && TravelRad(g.baseRad) == 0)))
      && (r.Failure? ==> r.error == Arithmetic)
  {
  }

  /**
   * A touch that is not taken up changes nothing; a touch that is taken up
   * and succeeds ends the processing; one that fails leaves the widget
   * processing, so that afterwards only a release gets through.
   */
  lemma RespondProcessing(v: View, g: Geometry, enabled: bool, listener: bool, action: int, x: int, y: int, mag: int)
    requires IsWorker(v.worker)
    ensures var ev := EvaluateEvent(action, x, y, g.cenX, g.cenY, g.trkrRad, g.baseRad);
      var (v', r) := Respond(v, g, enabled, listener, action, x, y, mag);
      && IsWorker(v'.worker)
      && (!Accepts(enabled, v.processing, ev) ==> v' == v && r == Success(false))
      && (Accepts(enabled, v.processing, ev) ==> v'.worker == Step(v.worker, ev) && (v'.processing <==> r.Failure?))
  {
  }

  /** After a touch that failed, the next touch gets through only if it releases. */
  lemma StuckUntilRelease(v: View, g: Geometry, enabled: bool, listener: bool, action: int, x: int, y: int, mag: int,
                          action2: int, x2: int, y2: int, mag2: int)
    requires IsWorker(v.worker)
    requires Respond(v, g, enabled, listener, action, x, y, mag).1.Failure?
    ensures var v1 := Respond(v, g, enabled, listener, action, x, y, mag).0;
      IsWorker(v1.worker)
      && (EvaluateEvent(action2, x2, y2, g.cenX, g.cenY, g.trkrRad, g.baseRad) != Release ==>
            Respond(v1, g, enabled, listener, action2, x2, y2, mag2) == (v1, Success(false)))
  {
    RespondProcessing(v, g, enabled, listener, action, x, y, mag);
  }

  /**
   * A release the widget takes up always brings the machine back to Idle
   * and re-centres the tracker; it answers `false` only for a press that
   * missed the tracker, and the listener hears of the release exactly when
   * the tracker was away from Idle.
   */
  lemma ReleaseRecentres(v: View, g: Geometry, enabled: bool, listener: bool, action: int, x: int, y: int, mag: int)
    requires IsWorker(v.worker)
    requires enabled && EvaluateEvent(action, x, y, g.cenX, g.cenY, g.trkrRad, g.baseRad) == Release
    requires listener ==> TravelRad(g.baseRad) != 0
    ensures var (v', r) := Respond(v, g, enabled, listener, action, x, y, mag);
      && v'.worker == IDLE && v'.posX == g.cenX && v'.posY == g.cenY && !v'.processing
      && r == Success(action != ACTION_DOWN)
      && |v'.notices| >= |v.notices| && v'.notices[..|v.notices|] == v.notices
      && (ReleaseTracking in v'.notices[|v.notices|..] <==> listener && v.worker != IDLE)
  {
    var ev := Release;
    var w := Step(v.worker, ev);
    assert w == IDLE;
    var tn := if listener then TransitionNotices(v.worker, ev) else [];
    var s := SubChanSignal(listener, g.cenX, g.cenY, v.xCache, v.yCache, g);
    assert s.Success?;
    var v' := Respond(v, g, enabled, listener, action, x, y, mag).0;
    assert v'.notices == v.notices + tn + s.value;
    assert v'.notices[|v.notices|..] == tn + s.value;
    assert ReleaseTracking !in s.value;
  }

  /**
   * Gripping the tracker of an idle widget starts tracking: the machine moves
   * to InBoundary, the tracker and its cache go to the finger, and the
   * listener is told first that tracking started.
   */
  lemma GripStartsTracking(v: View, g: Geometry, listener: bool, x: int, y: int, mag: int)
    requires v.worker == IDLE && !v.processing
    requires OnScreen(x) && OnScreen(y) && OnScreen(g.cenX) && OnScreen(g.cenY)
    requires 0 <= g.trkrRad <= 16383 && 0 <= g.baseRad <= 16383
    requires (x - g.cenX) * (x - g.cenX) + (y - g.cenY) * (y - g.cenY) <= g.trkrRad * g.trkrRad
    requires listener ==> TravelRad(g.baseRad) != 0
    ensures var (v', r) := Respond(v, g, true, listener, ACTION_DOWN, x, y, mag);
      && v'.worker == IN_BOUNDARY && !v'.processing && r == Success(true)
      && v'.posX == x && v'.posY == y && v'.xCache == x && v'.yCache == y
      && (listener ==> |v'.notices| > |v.notices| && v'.notices[|v.notices|] == StartTracking)
      && (!listener ==> v'.notices == v.notices)
  {
    EvaluateEventGeometry(ACTION_DOWN, x, y, g.cenX, g.cenY, g.trkrRad, g.baseRad);
  }

  /** The tracker lies within the square around the travel circle. */
  predicate WithinTravel(x: int, y: int, g: Geometry)
  {
    var t := TravelRad(g.baseRad);
    -t <= x - g.cenX <= t && -t <= y - g.cenY <= t
  }

  /** A widget whose centre is on screen, whose travel radius is positive, and whose tracker fits in it. */
  predicate SaneGeometry(g: Geometry)
  {
    && OnScreen(g.cenX) && OnScreen(g.cenY)
    && 2 <= g.baseRad <= 16383
    && 0 <= g.trkrRad <= 70 * g.baseRad / 100
  }

  /** `mag` is `(int) Math.sqrt(n)`: the integer square root of `n`. */
  predicate IsIntSqrt(mag: int, n: int)
  {
    0 <= mag && mag * mag <= n < (mag + 1) * (mag + 1)
  }

  lemma SquareNonNeg(e: int)
    ensures 0 <= e * e
  {
    var a := if e < 0 then -e else e;
    assert e * e == a * a;
    MulMono(0, a, a);
  }

  /** A coordinate beyond `r` on either side squares to at least `(r + 1)^2`. */
  lemma SquareOutside(d: int, r: int)
    requires 0 <= r && (d > r || d < -r)
    ensures (r + 1) * (r + 1) <= d * d
  {
    var a := if d < 0 then -d else d;
    assert d * d == a * a;
    MulMono(r + 1, a, r + 1);
    MulMono(r + 1, a, a);
  }

  /** Within a disc of radius `r` each coordinate is within `r`. */
  lemma CoordinateWithinRadius(d: int, e: int, r: int)
    requires 0 <= r && d * d + e * e <= r * r
    ensures -r <= d <= r
  {
    if d > r || d < -r {
      SquareOutside(d, r);
      SquareNonNeg(e);
    }
  }

  /** Below the integer square root of `d^2 + e^2`, each coordinate is within the root. */
  lemma CoordinateWithinRoot(d: int, e: int, m: int)
    requires IsIntSqrt(m, d * d + e * e)
    ensures -m <= d <= m
  {
    if d > m || d < -m {
      SquareOutside(d, m);
      SquareNonNeg(e);
    }
  }

  /** `(m * t) / m == t`. */
  lemma CancelFactor(m: int, t: int, mt: int)
    requires 0 < m && 0 <= t && mt == m * t
    ensures mt / m == t
  {
    DivModOfNatural(mt, m);
    var q := mt / m;
    if q < t {
      MulMono(q + 1, t, m);
    } else if q > t {
      MulMono(t + 1, q, m);
    }
  }

  /** Scaling a coordinate within the root by `t` and dividing by the root stays within `t`. */
  lemma ProjectionWithinTravel(d: int, m: int, t: int)
    requires 0 < m && 0 <= t && -m <= d <= m
    ensures -t <= Quot(d * t, m) <= t
  {
    var p, a := d * t, Abs(d);
    var at, mt := a * t, m * t;
    AbsOfProduct(d, t, p, at);
    MulMono(a, m, t);
    DivMonotone(at, mt, m);
    CancelFactor(m, t, mt);
    QuotByPositive(p, m);
  }

  lemma AbsOfProduct(d: int, t: int, p: int, at: int)
    requires 0 <= t && p == d * t && at == Abs(d) * t
    ensures Abs(p) == at && 0 <= at
  {
    MulNonNeg(Abs(d), t);
    if d < 0 {
      assert d * t == -(Abs(d) * t);
    }
  }

  lemma QuotByPositive(p: int, m: int)
    requires 0 < m
    ensures Quot(p, m) == if p < 0 then -(Abs(p) / m) else Abs(p) / m
  {
  }

  lemma MulNonNeg(a: int, b: int)
    requires 0 <= a && 0 <= b
    ensures 0 <= a * b
  {
    MulMono(0, a, b);
  }

  /** A product of an on-screen offset and a travel radius fits in an `int`. */
  lemma OffsetTimesTravel(d: int, t: int)
    requires -32766 <= d <= 32766 && 0 <= t <= 11468
    ensures InRange(d * t)
  {
    var a := if d < 0 then -d else d;
    MulMono(a, 32766, t);
    MulMono(t, 11468, 32766);
    assert d * t == a * t || d * t == -(a * t);
  }

  /** One coordinate of the on-boundary projection, in `int` arithmetic, is the exact projection. */
  lemma ProjectedCoordinate(d: int, m: int, t: int, c: int)
    requires OnScreen(c) && -32766 <= d <= 32766 && 0 < m && -m <= d <= m && 0 <= t <= 11468
    ensures var p := Add(Div(Mul(d, t), m), c);
      p == Quot(d * t, m) + c && -t <= p - c <= t
  {
    OffsetTimesTravel(d, t);
    ProjectionWithinTravel(d, m, t);
  }

  /**
   * On a sane widget, with `mag` the integer square root the projection
   * uses, the worker's action never takes the tracker outside the square
   * around the travel circle.
   */
  lemma TrackWithinTravel(g: Geometry, w: nat, x: int, y: int, mag: int)
    requires SaneGeometry(g) && IsWorker(w) && OnScreen(x) && OnScreen(y)
    requires w == IN_BOUNDARY ==> WithinTravel(x, y, g)
    requires IsIntSqrt(mag, (x - g.cenX) * (x - g.cenX) + (y - g.cenY) * (y - g.cenY))
    ensures Track(g, w, x, y, mag).Success? ==> WithinTravel(Track(g, w, x, y, mag).value.0, Track(g, w, x, y, mag).value.1, g)
  {
    var t := TravelRad(g.baseRad);
    TravelRadIsSeventyPercent(g.baseRad);
    if w == ON_BOUNDARY && mag != 0 {
      var dx, dy := x - g.cenX, y - g.cenY;
      assert Sub(x, g.cenX) == dx && Sub(y, g.cenY) == dy;
      CoordinateWithinRoot(dx, dy, mag);
      assert dx * dx + dy * dy == dy * dy + dx * dx;
      CoordinateWithinRoot(dy, dx, mag);
      ProjectedCoordinate(dx, mag, t, g.cenX);
      ProjectedCoordinate(dy, mag, t, g.cenY);
    }
  }

  /**
   * On a sane widget, the tracker stays within the square around the travel
   * circle from touch to touch: a tracker inside it is never moved outside.
   */
  lemma RespondKeepsTrackerWithinTravel(v: View, g: Geometry, enabled: bool, listener: bool, action: int, x: int, y: int, mag: int)
    requires IsWorker(v.worker) && SaneGeometry(g) && OnScreen(x) && OnScreen(y)
    requires IsIntSqrt(mag, (x - g.cenX) * (x - g.cenX) + (y - g.cenY) * (y - g.cenY))
    requires WithinTravel(v.posX, v.posY, g)
    ensures var v' := Respond(v, g, enabled, listener, action, x, y, mag).0;
      WithinTravel(v'.posX, v'.posY, g)
  {
    var ev := EvaluateEvent(action, x, y, g.cenX, g.cenY, g.trkrRad, g.baseRad);
    var w := Step(v.worker, ev);
    if Accepts(enabled, v.processing, ev) {
      if w == IN_BOUNDARY {
        TouchWithinTravel(action, x, y, g);
      }
      TrackWithinTravel(g, w, x, y, mag);
    }
  }

  /** A press that grips and a move that stays inside both land within the travel circle. */
  lemma TouchWithinTravel(action: int, x: int, y: int, g: Geometry)
    requires SaneGeometry(g) && OnScreen(x) && OnScreen(y)
    requires EvaluateEvent(action, x, y, g.cenX, g.cenY, g.trkrRad, g.baseRad) in {Grip, InBoundary}
    ensures WithinTravel(x, y, g)
  {
    var dx, dy := x - g.cenX, y - g.cenY;
    var t := TravelRad(g.baseRad);
    EvaluateEventGeometry(action, x, y, g.cenX, g.cenY, g.trkrRad, g.baseRad);
    TravelRadIsSeventyPercent(g.baseRad);
    MulMono(g.trkrRad, t, g.trkrRad);
    MulMono(g.trkrRad, t, t);
    assert dx * dx + dy * dy <= t * t;
    CoordinateWithinRadius(dx, dy, t);
    assert dy * dy + dx * dx <= t * t;
    CoordinateWithinRadius(dy, dx, t);
  }

  /**
   * Within the travel square the sub-channel values never wrap: each has the
   * sign of the tracker's offset, with up positive on sub-channel 1.
   */
  lemma SubChansFollowOffset(x: int, y: int, g: Geometry)
    requires SaneGeometry(g) && WithinTravel(x, y, g)
    ensures var r := SubChanVector(x, y, g.cenX, g.cenY, g.baseRad);
      && r.Success?
      && (x >= g.cenX ==> r.value[0] >= 0) && (x <= g.cenX ==> r.value[0] <= 0)
      && (y <= g.cenY ==> r.value[1] >= 0) && (y >= g.cenY ==> r.value[1] <= 0)
  {
    var t := TravelRad(g.baseRad);
    TravelRadIsSeventyPercent(g.baseRad);
    assert Sub(x, g.cenX) == x - g.cenX && Sub(g.cenY, y) == g.cenY - y;
    SubChanWithinTravel(x - g.cenX, t);
    SubChanWithinTravel(g.cenY - y, t);
  }
}
