/**
 * The integer logic of the touch joystick widget (controls/Joystick.java):
 * classifying a touch into a joystick event, the travel radius, the change of
 * reference frame, the scaling of the tracker position to two signed-byte
 * sub-channels, and the widget's touch handling, which drives the nested
 * machine of module `JoystickFsm`.
 *
 * Java `int` arithmetic is modelled with module `JavaInt`; coordinates are
 * the integer pixel positions the widget casts its float inputs to.
 */
module Controls {
  import opened Common
  import opened JavaInt
  import opened JoystickFsm

  const NUM_OF_SUBCHANS: int := 2
  const BASE_RAD_BOUNDARY_PERC: int := 70
  const TRKR_RAD_TOUCHABLE_PERC: int := 100

  /** The Android `MotionEvent` action codes the widget distinguishes. */
  const ACTION_DOWN: int := 0
  const ACTION_UP: int := 1
  const ACTION_MOVE: int := 2
  const ACTION_CANCEL: int := 3

  /** `getTravelRad`: how far the tracker may move from the centre, 70% of the base radius. */
  function TravelRad(baseRad: int): int
  {
    Div(Mul(BASE_RAD_BOUNDARY_PERC, baseRad), 100)
  }

  /** The touchable radius of the tracker: `TRKR_RAD_TOUCHABLE_PERC` percent of its radius. */
  function TouchTrkrRad(trkrRad: int): int
  {
    Div(Mul(TRKR_RAD_TOUCHABLE_PERC, trkrRad), 100)
  }

  /** Java's `x*x + y*y` on `int`. */
  function SquaredNorm(x: int, y: int): int
  {
    Add(Mul(x, x), Mul(y, y))
  }

  /**
   * `evaluateEvent`: a press on the tracker grips it and a press elsewhere
   * releases; a move within the travel radius is inside the boundary and
   * beyond it on the boundary; lifting, cancelling and any other action
   * release.
   */
  function EvaluateEvent(action: int, touchX: int, touchY: int, cenX: int, cenY: int, trkrRad: int, baseRad: int): JoyEvent
  {
    var x := Sub(touchX, cenX);
    var y := Sub(touchY, cenY);
    if action == ACTION_DOWN then
      var touchTrkrRad := TouchTrkrRad(trkrRad);
      if SquaredNorm(x, y) <= Mul(touchTrkrRad, touchTrkrRad) then Grip else Release
    else if action == ACTION_MOVE then
      if SquaredNorm(x, y) <= Mul(TravelRad(baseRad), TravelRad(baseRad)) then InBoundary else OnBoundary
    else if action == ACTION_UP || action == ACTION_CANCEL then Release
    else Release
  }

  /** Coordinates and radii for which no `int` operation of the widget overflows. */
  predicate OnScreen(v: int)
  {
    -16383 <= v <= 16383
  }

  lemma TravelRadIsSeventyPercent(baseRad: int)
    requires 0 <= baseRad <= MAX_INT / BASE_RAD_BOUNDARY_PERC
    ensures TravelRad(baseRad) == 70 * baseRad / 100
    ensures 0 <= TravelRad(baseRad) <= baseRad
    ensures TravelRad(baseRad) == 0 <==> baseRad <= 1
  {
    QuotOfNonNegative(70 * baseRad, 100);
  }

  lemma TouchTrkrRadIsRadius(trkrRad: int)
    requires 0 <= trkrRad <= MAX_INT / TRKR_RAD_TOUCHABLE_PERC
    ensures TouchTrkrRad(trkrRad) == trkrRad
  {
    QuotOfNonNegative(100 * trkrRad, 100);
  }

  lemma SquareBound(x: int)
    requires -32766 <= x <= 32766
    ensures 0 <= x * x <= 32766 * 32766
  {
    var a := if x < 0 then -x else x;
    assert x * x == a * a;
    MulMono(a, 32766, a);
    MulMono(a, 32766, 32766);
  }

  lemma MulMono(a: int, b: int, c: int)
    requires 0 <= a <= b && 0 <= c
    ensures 0 <= a * c <= b * c
  {
    assert b * c - a * c == (b - a) * c;
  }

  lemma SquaredNormExact(x: int, y: int)
    requires -32766 <= x <= 32766 && -32766 <= y <= 32766
    ensures SquaredNorm(x, y) == x * x + y * y
  {
    SquareBound(x);
    SquareBound(y);
  }

  lemma RadiusSquaredExact(r: int)
    requires 0 <= r <= 16383
    ensures Mul(r, r) == r * r
  {
    SquareBound(r);
  }

  /**
   * For on-screen inputs the classification is the geometry it is meant to
   * be, with no `int` overflow: a press grips exactly within the tracker's
   * radius, and a move is inside exactly within 70% of the base radius.
   */
  lemma EvaluateEventGeometry(action: int, touchX: int, touchY: int, cenX: int, cenY: int, trkrRad: int, baseRad: int)
    requires OnScreen(touchX) && OnScreen(touchY) && OnScreen(cenX) && OnScreen(cenY)
    requires 0 <= trkrRad <= 16383 && 0 <= baseRad <= 16383
    ensures var ev := EvaluateEvent(action, touchX, touchY, cenX, cenY, trkrRad, baseRad);
      var dx, dy := touchX - cenX, touchY - cenY;
      && (action == ACTION_DOWN ==> (ev == Grip || ev == Release) && (ev == Grip <==> dx * dx + dy * dy <= trkrRad * trkrRad))
      && (action == ACTION_MOVE ==>
            (ev == InBoundary || ev == OnBoundary)
            && (ev == InBoundary <==> dx * dx + dy * dy <= (70 * baseRad / 100) * (70 * baseRad / 100)))
      && (action != ACTION_DOWN && action != ACTION_MOVE ==> ev == Release)
  {
    var dx, dy := touchX - cenX, touchY - cenY;
    assert Sub(touchX, cenX) == dx && Sub(touchY, cenY) == dy;
    SquaredNormExact(dx, dy);
    TouchTrkrRadIsRadius(trkrRad);
    RadiusSquaredExact(trkrRad);
    TravelRadIsSeventyPercent(baseRad);
    RadiusSquaredExact(TravelRad(baseRad));
  }

  /** `toAbstractRefFrame`: the offset from the centre, with the Y axis pointing up. */
  function ToAbstractRefFrame(viewX: int, viewY: int, cenX: int, cenY: int): (v: seq<int>)
    ensures |v| == NUM_OF_SUBCHANS
  {
    [Sub(viewX, cenX), Sub(cenY, viewY)]
  }

  /** Back from the abstract frame to view coordinates. */
  function FromAbstractRefFrame(v: seq<int>, cenX: int, cenY: int): (int, int)
    requires |v| == NUM_OF_SUBCHANS
  {
    (cenX + v[0], cenY - v[1])
  }

  /**
   * Without overflow the change of frame is undone by its inverse, and a
   * point above the centre on screen (smaller view Y) lies at positive Y.
   */
  lemma AbstractRefFrameRoundTrip(viewX: int, viewY: int, cenX: int, cenY: int)
    requires OnScreen(viewX) && OnScreen(viewY) && OnScreen(cenX) && OnScreen(cenY)
    ensures FromAbstractRefFrame(ToAbstractRefFrame(viewX, viewY, cenX, cenY), cenX, cenY) == (viewX, viewY)
    ensures ToAbstractRefFrame(viewX, viewY, cenX, cenY)[1] > 0 <==> viewY < cenY
    ensures ToAbstractRefFrame(viewX, viewY, cenX, cenY)[0] > 0 <==> viewX > cenX
  {
  }

  /**
   * One sub-channel component: `128 * v / travel` under `int` arithmetic,
   * clamped to 127 from above and otherwise cast to `byte`.
   */
  function ScaleToSubChan(v: int, travel: int): (c: int)
    requires travel != 0
    ensures -128 <= c <= 127
  {
    var comp := Div(Mul(128, v), travel);
    if comp >= 128 then 127 else ToByte(comp)
  }

  /**
   * What `toSubChanRefFrame` returns for a tracker position: both components
   * scaled, or the division by zero Java raises when the travel radius is 0.
   */
  function SubChanVector(viewX: int, viewY: int, cenX: int, cenY: int, baseRad: int): (r: Result<seq<int>>)
    ensures r.Success? ==> |r.value| == NUM_OF_SUBCHANS
  {
    var a := ToAbstractRefFrame(viewX, viewY, cenX, cenY);
    var t := TravelRad(baseRad);
    if t == 0 then Failure(Arithmetic) else Success([ScaleToSubChan(a[0], t), ScaleToSubChan(a[1], t)])
  }

  /** `toSubChanRefFrame`: fills a fresh two-element array, component by component. */
  method ToSubChanRefFrame(viewX: int, viewY: int, cenX: int, cenY: int, baseRad: int) returns (r: Result<seq<int>>)
    ensures r == SubChanVector(viewX, viewY, cenX, cenY, baseRad)
  {
    var abstr := ToAbstractRefFrame(viewX, viewY, cenX, cenY);
    var vect := new int[NUM_OF_SUBCHANS];
    var t := TravelRad(baseRad);
    for i := 0 to NUM_OF_SUBCHANS
      invariant t != 0 || i == 0
      invariant forall k :: 0 <= k < i ==> vect[k] == ScaleToSubChan(abstr[k], t)
    {
      if t == 0 {
        return Failure(Arithmetic);
      }
      var comp := Div(Mul(128, abstr[i]), t);
      if comp >= 128 {
        vect[i] := 127;
      } else {
        vect[i] := ToByte(comp);
      }
    }
    if t == 0 {
      return Failure(Arithmetic);
    }
    assert vect[..] == [vect[0], vect[1]];
    r := Success(vect[..]);
  }

  /**
   * Within the travel radius no component wraps: it is `128 * v / travel`
   * rounded toward zero, 127 at the far positive edge and -128 at the far
   * negative one, and it has the sign of `v`.
   */
  lemma SubChanWithinTravel(v: int, t: int)
    requires 0 < t <= MAX_INT / 128 && -t <= v <= t
    ensures ScaleToSubChan(v, t) == if v == t then 127 else Quot(128 * v, t)
    ensures v >= 0 ==> ScaleToSubChan(v, t) >= 0
    ensures v <= 0 ==> ScaleToSubChan(v, t) <= 0
    ensures v == -t ==> ScaleToSubChan(v, t) == -128
  {
    var p := 128 * v;
    assert Mul(128, v) == p;
    QuotBound(p, t);
    if v == t {
      assert Quot(p, t) == 128;
    } else if v == -t {
      assert Quot(p, t) == -128;
    }
  }

  /** `Quot(p, t)` for `|p| <= 128 * t`, and its extremes. */
  lemma QuotBound(p: int, t: int)
    requires 0 < t && -128 * t <= p <= 128 * t
    ensures -128 <= Quot(p, t) <= 128
    ensures Quot(p, t) == 128 <==> p == 128 * t
    ensures Quot(p, t) == -128 <==> p == -128 * t
    ensures p >= 0 ==> Quot(p, t) >= 0
    ensures p <= 0 ==> Quot(p, t) <= 0
  {
    QuotientOfBounded(Abs(p), t);
  }

  /** `n / t` for `0 <= n <= 128 * t`. */
  lemma QuotientOfBounded(n: int, t: int)
    requires 0 < t && 0 <= n <= 128 * t
    ensures 0 <= n / t <= 128
    ensures n / t == 128 <==> n == 128 * t
  {
    DivModOfNatural(n, t);
    var q := n / t;
    if q > 128 {
      MulMono(129, q, t);
    } else if q < 128 {
      MulMono(q, 127, t);
    }
  }

  /** Within the travel radius, a larger offset never gives a smaller component. */
  lemma SubChanMonotone(v1: int, v2: int, t: int)
    requires 0 < t <= MAX_INT / 128 && -t <= v1 <= v2 <= t
    ensures ScaleToSubChan(v1, t) <= ScaleToSubChan(v2, t)
  {
    SubChanWithinTravel(v1, t);
    SubChanWithinTravel(v2, t);
    if v2 < t && v1 < 0 && v2 < 0 {
      DivMonotone(-128 * v2, -128 * v1, t);
    } else if v2 < t && v1 >= 0 {
      DivMonotone(128 * v1, 128 * v2, t);
    }
  }

  lemma DivMonotone(a: int, b: int, t: int)
    requires 0 <= a <= b && 0 < t
    ensures a / t <= b / t
  {
    DivModOfNatural(a, t);
    DivModOfNatural(b, t);
    var qa, qb := a / t, b / t;
    if qa > qb {
      MulMono(qb + 1, qa, t);
    }
  }

  /**
   * For any offset whose product with 128 fits in an `int`, the component is
   * the truncated quotient `128 * v / travel` exactly when that quotient fits
   * in a byte; above the range it is clamped to 127, below it there is no
   * clamp and the byte cast wraps it around modulo 256.
   */
  lemma SubChanOutsideTravel(v: int, t: int)
    requires 0 < t && -(MAX_INT / 128) <= v <= MAX_INT / 128
    ensures var q := Quot(128 * v, t);
      && (ScaleToSubChan(v, t) == q <==> -128 <= q <= 127)
      && (q >= 128 ==> ScaleToSubChan(v, t) == 127)
      && (q < -128 ==> ScaleToSubChan(v, t) == ToByte(q) && (ScaleToSubChan(v, t) - q) % 256 == 0)
  {
    var p := 128 * v;
    assert Mul(128, v) == p;
    var n := Abs(p);
    DivModOfNatural(n, t);
    MulMono(1, t, n / t);
    assert Wrap(Quot(p, t)) == Quot(p, t);
  }

  /**
   * Beyond the travel radius on the negative side the byte cast wraps: just
   * past the edge the component still reads -128, one step further it reads
   * 127, the far positive edge.
   */
  lemma SubChanBelowRangeWraps()
    ensures ScaleToSubChan(-201, 200) == -128
    ensures ScaleToSubChan(-202, 200) == 127
    ensures ScaleToSubChan(-2, 1) == 0
    ensures ScaleToSubChan(2, 1) == 127
  {
    SubChanOutsideTravel(-201, 200);
    SubChanOutsideTravel(-202, 200);
  }

  /** `getSubChanVal` as written: accepts 1 and 2, then indexes the two-element vector with it. */
  function GetSubChanValAsWritten(subchannel: int, vector: Result<seq<int>>): Result<int>
    requires vector.Success? ==> |vector.value| == NUM_OF_SUBCHANS
  {
    if subchannel > 0 && subchannel <= NUM_OF_SUBCHANS then
      match vector
      case Failure(err) => Failure(err)
      case Success(v) => if subchannel < |v| then Success(v[subchannel]) else Failure(ArrayIndexOutOfBounds)
    else Failure(IndexOutOfBounds)
  }

  /**
   * As written, sub-channel 0 (X) is refused, sub-channel 2 overruns the
   * array, and only sub-channel 1 (Y) can be read.
   */
  lemma GetSubChanValAsWrittenMissesChannels(v: seq<int>)
    requires |v| == NUM_OF_SUBCHANS
    ensures GetSubChanValAsWritten(0, Success(v)) == Failure(IndexOutOfBounds)
    ensures GetSubChanValAsWritten(2, Success(v)) == Failure(ArrayIndexOutOfBounds)
    ensures forall c :: GetSubChanValAsWritten(c, Success(v)).Success? <==> c == 1
  {
  }

  /** `getSubChanVal` with the bounds the widget reports: sub-channels 0 and 1. */
  function SubChanValue(subchannel: int, vector: Result<seq<int>>): Result<int>
    requires vector.Success? ==> |vector.value| == NUM_OF_SUBCHANS
  {
    if 0 <= subchannel < NUM_OF_SUBCHANS then
      match vector
      case Failure(err) => Failure(err)
      case Success(v) => Success(v[subchannel])
  else Failure(IndexOutOfBounds)
  }

  /** Every one of the `getNumOfSubChans()` sub-channels can be read, and no other. */
  lemma SubChanValueReadsEveryChannel(v: seq<int>)
    requires |v| == NUM_OF_SUBCHANS
    ensures forall c :: SubChanValue(c, Success(v)).Success? <==> 0 <= c < NUM_OF_SUBCHANS
    ensures forall c :: 0 <= c < NUM_OF_SUBCHANS ==> SubChanValue(c, Success(v)).value == v[c]
  {
  }

  /** The sub-channels `signalSubChanChange` reports as written: channel 1 compares X with the cached Y. */
  function SubChanChangesAsWritten(x: int, y: int, xCache: int, yCache: int): seq<int>
  {
    (if x != xCache then [0] else []) + (if x != yCache then [1] else [])
  }

  /** The sub-channels `signalSubChanChange` reports, each compared with its own cached coordinate. */
  function SubChanChanges(x: int, y: int, xCache: int, yCache: int): seq<int>
  {
    (if x != xCache then [0] else []) + (if y != yCache then [1] else [])
  }

  /** A channel is reported exactly when its coordinate moved, each at most once, in channel order. */
  lemma SubChanChangesExact(x: int, y: int, xCache: int, yCache: int)
    ensures forall c :: c in SubChanChanges(x, y, xCache, yCache) <==> (c == 0 && x != xCache) || (c == 1 && y != yCache)
    ensures forall i, j :: 0 <= i < j < |SubChanChanges(x, y, xCache, yCache)| ==>
      SubChanChanges(x, y, xCache, yCache)[i] < SubChanChanges(x, y, xCache, yCache)[j]
  {
  }

  /**
   * As written, a vertical move is missed when X happens to equal the cached
   * Y, and a horizontal move is reported on channel 1 as well.
   */
  lemma SubChanChangesAsWrittenConfusesAxes()
    ensures SubChanChangesAsWritten(3, 4, 3, 3) == [] && SubChanChanges(3, 4, 3, 3) == [1]
    ensures SubChanChangesAsWritten(4, 3, 3, 3) == [0, 1] && SubChanChanges(4, 3, 3, 3) == [0]
  {
  }
}
