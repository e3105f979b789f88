/**
  The decision logic of the editor cursor (`CursorService`): the three
  selection requests built on `RequestValue`, the per-frame `Update` that
  decides which cursor is drawn, `ForceUpdateLaneCursor`, and the clamp that
  bounds a mouse-wheel scroll of the chart timing.

  Raycasts, screen and world coordinates, and everything computed in floating
  point arrive here already decided, as the fields of `Sensors`.
 */
module Cursor {
  import opened Nullable
  import opened SelectionRequest

  /** The service's fields that the decisions read or write. */
  datatype CursorState = CursorState(
    isCursorAboveViewport: bool,
    isLaneCursorEnabled: bool,
    isHittingLane: bool,
    isHittingVertical: bool,
    selectingTiming: int,
    selectingLane: int,
    laneCursorShown: bool,         // cursorLaneTiming / cursorLaneX active
    verticalCursorShown: bool,     // cursorVerticalX / cursorVerticalY active
    verticalColliderActive: bool,
    showVerticalAtTiming: int)

  /** Where the lane collider was hit: the grid-snapped timing and the lane under the point. */
  datatype LaneHit = LaneHit(timing: int, lane: int)

  /** What the engine reports during one `Update`. `laneHit` is `None` when the
      ray misses the lane collider (the cursor is not hovering on the track). */
  datatype Sensors = Sensors(
    gameplayLoaded: bool,
    dialogOpen: bool,
    mouseInViewport: bool,
    laneHit: Option<LaneHit>,
    hitsVertical: bool)

  /** The new state, and whether `CheckScroll` and `UpdateVerticalZPosition` ran. */
  datatype Tick = Tick(state: CursorState, scrollChecked: bool, verticalZUpdated: bool)

  /** `AlignLaneCursor`: show the lane cursor and select the hit timing and lane. */
  function AlignLaneCursor(s: CursorState, hit: LaneHit): CursorState {
    s.(laneCursorShown := true, selectingTiming := hit.timing, selectingLane := hit.lane)
  }

  /** One frame of `Update`. */
  function Update(s: CursorState, input: Sensors): (r: Tick)
    // the request flags are never touched by the per-frame update
    ensures r.state.isLaneCursorEnabled == s.isLaneCursorEnabled
    ensures r.state.verticalColliderActive == s.verticalColliderActive
    ensures r.state.showVerticalAtTiming == s.showVerticalAtTiming
    // nothing happens before gameplay is loaded
    ensures !input.gameplayLoaded ==> r == Tick(s, false, false)
    // outside the viewport, or under a dialog, only the viewport flag changes
    ensures input.gameplayLoaded && (input.dialogOpen || !input.mouseInViewport) ==>
              r == Tick(s.(isCursorAboveViewport := false), false, false)
    ensures input.gameplayLoaded ==>
              r.state.isCursorAboveViewport == (!input.dialogOpen && input.mouseInViewport)
    // over the viewport
    ensures r.state.isCursorAboveViewport && input.gameplayLoaded ==>
              && r.state.isHittingLane == (s.isLaneCursorEnabled && input.laneHit.Some?)
              && r.state.isHittingVertical == input.hitsVertical
              && r.scrollChecked == input.laneHit.Some?
              && r.verticalZUpdated == s.verticalColliderActive
              && r.state.verticalCursorShown == input.hitsVertical
              && r.state.laneCursorShown == (r.state.isHittingLane && !input.hitsVertical)
              && !(r.state.laneCursorShown && r.state.verticalCursorShown)
    // the selection moves only with a shown lane cursor, to the point hit
    ensures input.gameplayLoaded && r.state.isCursorAboveViewport && r.state.laneCursorShown ==>
              && input.laneHit.Some?
              && r.state.selectingTiming == input.laneHit.value.timing
              && r.state.selectingLane == input.laneHit.value.lane
    ensures !(input.gameplayLoaded && r.state.isCursorAboveViewport && r.state.laneCursorShown) ==>
              r.state.selectingTiming == s.selectingTiming && r.state.selectingLane == s.selectingLane
  {
    if !input.gameplayLoaded then Tick(s, false, false)
    else
      var above := !input.dialogOpen && input.mouseInViewport;
      if !above then Tick(s.(isCursorAboveViewport := false), false, false)
      else
        var hovering := input.laneHit.Some?;
        var hittingLane := s.isLaneCursorEnabled && hovering;
        var s1 := s.(isCursorAboveViewport := true, isHittingVertical := input.hitsVertical, isHittingLane := hittingLane);
        var s2 := if !input.hitsVertical && hittingLane then AlignLaneCursor(s1, input.laneHit.value)
                  else s1.(laneCursorShown := false);
        var s3 := s2.(verticalCursorShown := input.hitsVertical);
        Tick(s3, hovering, s3.verticalColliderActive)
  }

  /** `ForceUpdateLaneCursor`: recompute the lane hit now. It aligns the lane
      cursor whenever the track is hovered, even with the lane cursor disabled. */
  function ForceUpdateLaneCursor(s: CursorState, laneHit: Option<LaneHit>): (r: CursorState)
    ensures r.isHittingLane == (s.isLaneCursorEnabled && laneHit.Some?)
    ensures laneHit.Some? ==>
              r.laneCursorShown && r.selectingTiming == laneHit.value.timing && r.selectingLane == laneHit.value.lane
    ensures laneHit.None? ==> r == s.(isHittingLane := false)
    // only the lane hit and the fields `AlignLaneCursor` writes change
    ensures r == s.(isHittingLane := r.isHittingLane, laneCursorShown := r.laneCursorShown,
                    selectingTiming := r.selectingTiming, selectingLane := r.selectingLane)
  {
    var s1 := s.(isHittingLane := s.isLaneCursorEnabled && laneHit.Some?);
    if laneHit.Some? then AlignLaneCursor(s1, laneHit.value) else s1
  }

  // ---------------------------------------------------------------------------
  // Mouse-wheel scrolling of the chart timing

  /** Distance between two timings. */
  function Dist(a: int, b: int): nat {
    if a <= b then b - a else a - b
  }

  /** Unity's `Mathf.Clamp(int value, int min, int max)`. */
  function Clamp(value: int, min: int, max: int): (r: int)
    ensures min <= max ==> min <= r <= max
    ensures min <= max ==> forall x :: min <= x <= max ==> Dist(r, value) <= Dist(x, value)
    ensures max < min ==> r == min || r == max
  {
    if value < min then min
    else if value > max then max
    else value
  }

  /** What `CheckScroll` makes of the wheel. `Idle`: the raw vertical delta is
      zero or its magnitude is below the scroll threshold. Otherwise the delta is
      scaled by the sensitivity: `Forward` when the scaled delta is positive,
      `Backward` when it is not, which includes a scaled delta of zero under a
      sensitivity of zero. */
  datatype Wheel = Idle | Forward | Backward

  /** The grid's `MoveTimingForward` and `MoveTimingBackward`. */
  datatype Grid = Grid(forward: int -> int, backward: int -> int)

  /** `CheckScroll`: the chart timing to write, or `None` when nothing is written. */
  function CheckScroll(timing: int, wheel: Wheel, grid: Grid, maxMovement: int): (r: Option<int>)
    ensures r.None? <==> wheel.Idle?
    ensures r.Some? && maxMovement >= 0 ==> timing - maxMovement <= r.value <= timing + maxMovement
    // the written timing is the point of the window nearest the grid's move
    ensures wheel.Forward? && maxMovement >= 0 ==>
              forall x :: timing - maxMovement <= x <= timing + maxMovement ==>
                Dist(r.value, grid.forward(timing)) <= Dist(x, grid.forward(timing))
    ensures wheel.Backward? && maxMovement >= 0 ==>
              forall x :: timing - maxMovement <= x <= timing + maxMovement ==>
                Dist(r.value, grid.backward(timing)) <= Dist(x, grid.backward(timing))
    ensures wheel.Forward? && Dist(grid.forward(timing), timing) <= maxMovement ==> r == Some(grid.forward(timing))
    ensures wheel.Backward? && Dist(grid.backward(timing), timing) <= maxMovement ==> r == Some(grid.backward(timing))
  {
    match wheel
    case Idle => None
    case Forward => Some(Clamp(grid.forward(timing), timing - maxMovement, timing + maxMovement))
    case Backward => Some(Clamp(grid.backward(timing), timing - maxMovement, timing + maxMovement))
  }

  // ---------------------------------------------------------------------------
  // Selection requests

  /** The state on entry to the loop, the loop's reply, and the entry state with
      the request's own closing writes applied (the same as on entry while the
      request is pending). The fields that `Update` writes between frames
      (`selectingTiming`, `isHittingLane`, the cursors) are not tracked here:
      `after` says only what the request itself changes. */
  datatype Session<T> = Session(during: CursorState, reply: Reply<T>, after: CursorState)

  /** The lanes of the playfield, `Gameplay.Values.LaneFrom` to `LaneTo`. */
  datatype LaneRange = LaneRange(laneFrom: int, laneTo: int)

  /** The caller's lane constraint, narrowed to the playfield's lanes. */
  function LaneConstraint(c: Constraint<int>, lanes: LaneRange): (r: Constraint<int>)
    ensures forall lane :: Valid(r, lane) <==> Valid(c, lane) && lanes.laneFrom <= lane <= lanes.laneTo
  {
    Some((lane: int) => Valid(c, lane) && lanes.laneFrom <= lane <= lanes.laneTo)
  }

  /** `RequestTimingSelection`: each frame selects the cursor's `selectingTiming`. */
  function RequestTimingSelection(s: CursorState, frames: seq<Frame<int>>, c: Constraint<int>): (r: Session<int>)
    ensures r.during == s.(isLaneCursorEnabled := true)
    ensures r.reply.Finished? ==> r.after == s.(isLaneCursorEnabled := false)
    ensures r.reply.Pending? ==> r.after == r.during
    // the reply is the polling loop's, with the caller's constraint and default 0
    ensures r.reply == RequestValue(c, 0, frames)
    ensures r.reply.Finished? && r.reply.wasSuccessful ==> Valid(c, r.reply.value)
    ensures forall v :: v in r.reply.updates ==> Valid(c, v)
  {
    var during := s.(isLaneCursorEnabled := true);
    var reply := RequestValue(c, 0, frames);
    SuccessIsValid(c, 0, frames);
    UpdatesAreAcceptedSelections(c, 0, frames);
    Session(during, reply, if reply.Finished? then during.(isLaneCursorEnabled := false) else during)
  }

  /** `RequestLaneSelection`: each frame selects the cursor's `selectingLane`. */
  function RequestLaneSelection(s: CursorState, lanes: LaneRange, frames: seq<Frame<int>>, c: Constraint<int>): (r: Session<int>)
    ensures r.during == s.(isLaneCursorEnabled := true)
    ensures r.reply.Finished? ==> r.after == s.(isLaneCursorEnabled := false)
    ensures r.reply.Pending? ==> r.after == r.during
    // the reply is the polling loop's, with the constraint narrowed to the playfield
    ensures r.reply == RequestValue(LaneConstraint(c, lanes), 0, frames)
    ensures r.reply.Finished? && r.reply.wasSuccessful ==>
              Valid(c, r.reply.value) && lanes.laneFrom <= r.reply.value <= lanes.laneTo
    ensures forall v :: v in r.reply.updates ==> Valid(c, v) && lanes.laneFrom <= v <= lanes.laneTo
  {
    var during := s.(isLaneCursorEnabled := true);
    var narrowed := LaneConstraint(c, lanes);
    var reply := RequestValue(narrowed, 0, frames);
    SuccessIsValid(narrowed, 0, frames);
    UpdatesAreAcceptedSelections(narrowed, 0, frames);
    Session(during, reply, if reply.Finished? then during.(isLaneCursorEnabled := false) else during)
  }

  /** `RequestVerticalSelection`: each frame selects the vertical cursor's point;
      `origin` stands for `default(Vector2)`, the zero point the C# method
      returns when nothing was selected. */
  function RequestVerticalSelection<P>(s: CursorState, showVerticalAtTiming: int, origin: P,
                                       frames: seq<Frame<P>>, c: Constraint<P>): (r: Session<P>)
    ensures r.during == s.(showVerticalAtTiming := showVerticalAtTiming, verticalColliderActive := true)
    ensures r.reply.Finished? ==> r.after == s.(showVerticalAtTiming := showVerticalAtTiming, verticalColliderActive := false)
    ensures r.reply.Pending? ==> r.after == r.during
    // the reply is the polling loop's, with `origin` as the default
    ensures r.reply == RequestValue(c, origin, frames)
    ensures r.reply.Finished? && r.reply.wasSuccessful ==> Valid(c, r.reply.value)
    ensures r.reply.Finished? && !r.reply.wasSuccessful && r.reply.updates == [] ==> r.reply.value == origin
  {
    var during := s.(showVerticalAtTiming := showVerticalAtTiming, verticalColliderActive := true);
    var reply := RequestValue(c, origin, frames);
    SuccessIsValid(c, origin, frames);
    RequestValueMeaning(c, origin, frames);
    Session(during, reply, if reply.Finished? then during.(verticalColliderActive := false) else during)
  }

  /** The lane request succeeds exactly when it stops on a confirming frame and
      some frame up to that one selected a lane the caller accepts inside the
      playfield. */
  lemma LaneRequestSucceedsExactly(s: CursorState, lanes: LaneRange, frames: seq<Frame<int>>, c: Constraint<int>)
    ensures var reply := RequestLaneSelection(s, lanes, frames, c).reply;
            (reply.Finished? && reply.wasSuccessful) <==>
              exists i: nat :: StopsAt(frames, i) && frames[i].confirm &&
                exists j :: 0 <= j <= i && Valid(c, frames[j].selected) &&
                            lanes.laneFrom <= frames[j].selected <= lanes.laneTo
  {
    var narrowed := LaneConstraint(c, lanes);
    RequestValueMeaning(narrowed, 0, frames);
    match FirstFiring(frames)
    case None =>
    case Some(i) =>
      AcceptedEmpty(narrowed, frames[..i + 1]);
      assert forall j :: 0 <= j <= i ==> frames[..i + 1][j] == frames[j];
  }

  /** However many frames the engine updates the cursor while a request runs,
      `Update` leaves the request's flags as the request set them. A caller
      writing `EnableLaneCursor`, or another request ending, is not such a frame. */
  lemma {:induction false} UpdatesKeepRequestFlags(s: CursorState, inputs: seq<Sensors>)
    ensures var t := UpdateAll(s, inputs);
            && t.isLaneCursorEnabled == s.isLaneCursorEnabled
            && t.verticalColliderActive == s.verticalColliderActive
            && t.showVerticalAtTiming == s.showVerticalAtTiming
    decreases |inputs|
  {
    if |inputs| > 0 {
      UpdatesKeepRequestFlags(Update(s, inputs[0]).state, inputs[1..]);
    }
  }

  /** The state after a run of `Update` frames. */
  function UpdateAll(s: CursorState, inputs: seq<Sensors>): CursorState
    decreases |inputs|
  {
    if |inputs| == 0 then s else UpdateAll(Update(s, inputs[0]).state, inputs[1..])
  }

  /** While a lane request runs and only `Update` frames pass, a frame over the
      viewport hits the lane exactly when the track is hovered. */
  lemma LaneRequestHitsWhenHovering(s: CursorState, lanes: LaneRange, frames: seq<Frame<int>>, c: Constraint<int>,
                                    before: seq<Sensors>, input: Sensors)
    requires input.gameplayLoaded && !input.dialogOpen && input.mouseInViewport
    ensures var t := Update(UpdateAll(RequestLaneSelection(s, lanes, frames, c).during, before), input);
            t.state.isHittingLane == input.laneHit.Some?
  {
    UpdatesKeepRequestFlags(RequestLaneSelection(s, lanes, frames, c).during, before);
  }

  /** Over the viewport with no vertical hit and the lane cursor enabled, forcing
      the lane cursor decides the lane hit and the selection exactly as a frame of
      `Update` does. */
  lemma ForceUpdateAgreesWithUpdate(s: CursorState, input: Sensors)
    requires input.gameplayLoaded && !input.dialogOpen && input.mouseInViewport
    requires !input.hitsVertical && s.isLaneCursorEnabled
    ensures var u := Update(s, input).state;
            var f := ForceUpdateLaneCursor(s, input.laneHit);
            && u.isHittingLane == f.isHittingLane
            && u.selectingTiming == f.selectingTiming
            && u.selectingLane == f.selectingLane
            && (input.laneHit.Some? ==> u.laneCursorShown && f.laneCursorShown)
  {
  }
}
