/**
  The selection-request loop of the editor cursor (`CursorService.RequestValue`).

  The C# method polls once per frame: it reads the currently selected value, keeps
  it (and reports it to `update`) when it passes the constraint, then stops on
  confirm, checked first, or on cancel, and otherwise waits for the next frame.
  Here the frames are an explicit finite trace and the loop is a fold over it.
  A trace in which no frame confirms or cancels leaves the request `Pending`.
 */
module SelectionRequest {
  import opened Nullable

  /** What one frame of polling observes. */
  datatype Frame<T> = Frame(selected: T, confirm: bool, cancel: bool)

  /** The caller's filter; `None` is a null delegate, which accepts every value. */
  type Constraint<!T> = Option<T -> bool>

  /** `constraint?.Invoke(v) ?? true` */
  predicate Valid<T>(c: Constraint<T>, v: T) {
    match c
    case None => true
    case Some(f) => f(v)
  }

  /** The loop's variables: `result`, `resultSet`, and every value handed to `update` so far. */
  datatype Loop<T> = Loop(result: T, resultSet: bool, updates: seq<T>)

  /** `Finished` is the C# method's `(wasSuccessful, value)` pair, together with the
      values `update` received and the index of the frame the loop stopped on. */
  datatype Reply<T> =
    | Pending(updates: seq<T>)
    | Finished(wasSuccessful: bool, value: T, updates: seq<T>, frame: nat)

  /** The first half of one iteration: read the selection, keep it if valid. */
  function Observe<T>(c: Constraint<T>, acc: Loop<T>, v: T): Loop<T> {
    if Valid(c, v) then Loop(v, true, acc.updates + [v]) else acc
  }

  /** The loop from frame number `k` on, with the variables `acc` carried so far. */
  function Poll<T>(c: Constraint<T>, frames: seq<Frame<T>>, acc: Loop<T>, k: nat): Reply<T>
    decreases |frames|
  {
    if |frames| == 0 then Pending(acc.updates)
    else
      var acc' := Observe(c, acc, frames[0].selected);
      if frames[0].confirm then Finished(acc'.resultSet, acc'.result, acc'.updates, k)
      else if frames[0].cancel then Finished(false, acc'.result, acc'.updates, k)
      else Poll(c, frames[1..], acc', k + 1)
  }

  /** `RequestValue<T>`; `defaultValue` is C#'s `default(T)`. */
  function RequestValue<T>(c: Constraint<T>, defaultValue: T, frames: seq<Frame<T>>): Reply<T> {
    Poll(c, frames, Loop(defaultValue, false, []), 0)
  }

  // ---------------------------------------------------------------------------
  // Reference definitions, independent of the loop

  /** A frame on which the loop would leave: confirm or cancel was executed. */
  predicate Fires<T>(f: Frame<T>) {
    f.confirm || f.cancel
  }

  /** `i` is the first frame of the trace that fires. */
  predicate StopsAt<T>(frames: seq<Frame<T>>, i: nat) {
    && i < |frames|
    && Fires(frames[i])
    && forall j :: 0 <= j < i ==> !Fires(frames[j])
  }

  /** The selections of `frames` that pass the constraint, in frame order. */
  function Accepted<T>(c: Constraint<T>, frames: seq<Frame<T>>): seq<T>
    decreases |frames|
  {
    if |frames| == 0 then []
    else (if Valid(c, frames[0].selected) then [frames[0].selected] else []) + Accepted(c, frames[1..])
  }

  /** The last element of `vs`, or `d` when there is none. */
  function LastOr<T>(vs: seq<T>, d: T): T {
    if |vs| == 0 then d else vs[|vs| - 1]
  }

  /** The index of the first frame that fires, if any. */
  function FirstFiring<T>(frames: seq<Frame<T>>): (r: Option<nat>)
    ensures r.Some? ==> StopsAt(frames, r.value)
    ensures r.None? ==> forall j :: 0 <= j < |frames| ==> !Fires(frames[j])
    decreases |frames|
  {
    if |frames| == 0 then None
    else if Fires(frames[0]) then Some(0)
    else
      match FirstFiring(frames[1..])
      case None => None
      case Some(i) => Some(i + 1)
  }

  /** What the request must answer for a trace, stated without the loop. */
  function Expected<T>(c: Constraint<T>, defaultValue: T, frames: seq<Frame<T>>): Reply<T> {
    match FirstFiring(frames)
    case None => Pending(Accepted(c, frames))
    case Some(i) =>
      var vs := Accepted(c, frames[..i + 1]);
      Finished(frames[i].confirm && |vs| > 0, LastOr(vs, defaultValue), vs, i)
  }

  // ---------------------------------------------------------------------------
  // Facts about the reference definitions

  lemma {:induction false} AcceptedConcat<T>(c: Constraint<T>, a: seq<Frame<T>>, b: seq<Frame<T>>)
    ensures Accepted(c, a + b) == Accepted(c, a) + Accepted(c, b)
    decreases |a|
  {
    if |a| > 0 {
      assert (a + b)[1..] == a[1..] + b;
      AcceptedConcat(c, a[1..], b);
    } else {
      assert a + b == b;
    }
  }

  /** Only values that pass the constraint are ever accepted. */
  lemma {:induction false} AcceptedAreValid<T>(c: Constraint<T>, frames: seq<Frame<T>>)
    ensures forall v :: v in Accepted(c, frames) ==> Valid(c, v)
    decreases |frames|
  {
    if |frames| > 0 {
      AcceptedAreValid(c, frames[1..]);
    }
  }

  /** Without a constraint every selection is accepted, one per frame, in order. */
  lemma {:induction false} AcceptedWithoutConstraint<T>(frames: seq<Frame<T>>)
    ensures |Accepted(None, frames)| == |frames|
    ensures forall i :: 0 <= i < |frames| ==> Accepted(None, frames)[i] == frames[i].selected
    decreases |frames|
  {
    if |frames| > 0 {
      AcceptedWithoutConstraint(frames[1..]);
    }
  }

  /** Nothing is accepted exactly when no selection passes the constraint. */
  lemma {:induction false} AcceptedEmpty<T>(c: Constraint<T>, frames: seq<Frame<T>>)
    ensures Accepted(c, frames) == [] <==> forall j :: 0 <= j < |frames| ==> !Valid(c, frames[j].selected)
    decreases |frames|
  {
    if |frames| > 0 {
      AcceptedEmpty(c, frames[1..]);
      if Valid(c, frames[0].selected) {
        assert Accepted(c, frames)[0] == frames[0].selected;
      } else {
        assert forall j :: 1 <= j < |frames| ==> frames[1..][j - 1] == frames[j];
      }
    }
  }

  /** The last accepted value is the selection of the last frame that passed. */
  lemma AcceptedLast<T>(c: Constraint<T>, frames: seq<Frame<T>>, j: nat, d: T)
    requires j < |frames| && Valid(c, frames[j].selected)
    requires forall m :: j < m < |frames| ==> !Valid(c, frames[m].selected)
    ensures LastOr(Accepted(c, frames), d) == frames[j].selected
  {
    var tail := frames[j + 1..];
    assert frames == frames[..j] + [frames[j]] + tail;
    AcceptedConcat(c, frames[..j] + [frames[j]], tail);
    AcceptedConcat(c, frames[..j], [frames[j]]);
    AcceptedEmpty(c, tail);
    assert Accepted(c, [frames[j]]) == [frames[j].selected];
  }

  // ---------------------------------------------------------------------------
  // The loop agrees with the reference

  /** The loop variables agree with the list of values reported so far. */
  ghost predicate Tracks<T>(acc: Loop<T>, d: T) {
    acc.resultSet == (|acc.updates| > 0) && acc.result == LastOr(acc.updates, d)
  }

  lemma ObserveTracks<T>(c: Constraint<T>, acc: Loop<T>, f: Frame<T>, d: T)
    requires Tracks(acc, d)
    ensures Tracks(Observe(c, acc, f.selected), d)
    ensures Observe(c, acc, f.selected).updates == acc.updates + Accepted(c, [f])
  {
  }

  /** One iteration that neither confirms nor cancels moves on to the next frame. */
  lemma PollContinues<T>(c: Constraint<T>, frames: seq<Frame<T>>, acc: Loop<T>, k: nat)
    requires |frames| > 0 && !Fires(frames[0])
    ensures Poll(c, frames, acc, k) == Poll(c, frames[1..], Observe(c, acc, frames[0].selected), k + 1)
  {
  }

  /** The reference advanced by the first frame, which does not fire. */
  lemma StopsAtTail<T>(c: Constraint<T>, frames: seq<Frame<T>>, i: nat)
    requires StopsAt(frames, i) && i > 0
    ensures StopsAt(frames[1..], i - 1)
    ensures Accepted(c, frames[..i + 1]) == Accepted(c, [frames[0]]) + Accepted(c, frames[1..][..i])
  {
    var rest := frames[1..];
    forall j | 0 <= j < i - 1
      ensures !Fires(rest[j])
    {
      assert rest[j] == frames[j + 1];
    }
    assert frames[..i + 1] == [frames[0]] + rest[..i];
    AcceptedConcat(c, [frames[0]], rest[..i]);
  }

  /** The answer of a loop that stops with `vs` reported. */
  function Stopped<T>(confirm: bool, vs: seq<T>, d: T, k: nat): Reply<T> {
    Finished(confirm && |vs| > 0, LastOr(vs, d), vs, k)
  }

  /** A loop whose first frame fires stops there. */
  lemma PollStopsHere<T>(c: Constraint<T>, frames: seq<Frame<T>>, acc: Loop<T>, k: nat, d: T)
    requires |frames| > 0 && Fires(frames[0])
    requires Tracks(acc, d)
    ensures Poll(c, frames, acc, k) == Stopped(frames[0].confirm, acc.updates + Accepted(c, frames[..1]), d, k)
  {
  }

  /** The inductive step: the answer after the first frame is the answer for the whole trace. */
  lemma PollStopsStep<T>(c: Constraint<T>, frames: seq<Frame<T>>, acc: Loop<T>, k: nat, i: nat, d: T)
    requires StopsAt(frames, i) && i > 0
    requires Tracks(acc, d)
    requires var acc' := Observe(c, acc, frames[0].selected);
             Poll(c, frames[1..], acc', k + 1)
             == Stopped(frames[i].confirm, acc'.updates + Accepted(c, frames[1..][..i]), d, k + i)
    ensures Poll(c, frames, acc, k) == Stopped(frames[i].confirm, acc.updates + Accepted(c, frames[..i + 1]), d, k + i)
  {
    ObserveTracks(c, acc, frames[0], d);
    StopsAtTail(c, frames, i);
    PollContinues(c, frames, acc, k);
    var acc' := Observe(c, acc, frames[0].selected);
    var tail := Accepted(c, frames[1..][..i]);
    assert acc'.updates + tail == acc.updates + (Accepted(c, [frames[0]]) + tail);
  }

  lemma {:induction false} PollStops<T>(c: Constraint<T>, frames: seq<Frame<T>>, acc: Loop<T>, k: nat, i: nat, d: T)
    requires StopsAt(frames, i)
    requires Tracks(acc, d)
    ensures Poll(c, frames, acc, k) == Stopped(frames[i].confirm, acc.updates + Accepted(c, frames[..i + 1]), d, k + i)
    decreases |frames|
  {
    if i == 0 {
      PollStopsHere(c, frames, acc, k, d);
    } else {
      ObserveTracks(c, acc, frames[0], d);
      StopsAtTail(c, frames, i);
      PollStops(c, frames[1..], Observe(c, acc, frames[0].selected), k + 1, i - 1, d);
      assert frames[1..][i - 1] == frames[i];
      PollStopsStep(c, frames, acc, k, i, d);
    }
  }

  lemma {:induction false} PollPending<T>(c: Constraint<T>, frames: seq<Frame<T>>, acc: Loop<T>, k: nat, d: T)
    requires forall j :: 0 <= j < |frames| ==> !Fires(frames[j])
    requires Tracks(acc, d)
    ensures Poll(c, frames, acc, k) == Pending(acc.updates + Accepted(c, frames))
    decreases |frames|
  {
    if |frames| > 0 {
      ObserveTracks(c, acc, frames[0], d);
      assert frames == [frames[0]] + frames[1..];
      AcceptedConcat(c, [frames[0]], frames[1..]);
      assert forall j :: 0 <= j < |frames[1..]| ==> frames[1..][j] == frames[j + 1];
      PollPending(c, frames[1..], Observe(c, acc, frames[0].selected), k + 1, d);
    }
  }

  /** The loop answers what the reference says, for every trace. */
  lemma RequestValueMeaning<T>(c: Constraint<T>, d: T, frames: seq<Frame<T>>)
    ensures RequestValue(c, d, frames) == Expected(c, d, frames)
  {
    var acc := Loop(d, false, []);
    match FirstFiring(frames)
    case None =>
      PollPending(c, frames, acc, 0, d);
      assert acc.updates + Accepted(c, frames) == Accepted(c, frames);
    case Some(i) =>
      PollStops(c, frames, acc, 0, i, d);
      assert acc.updates + Accepted(c, frames[..i + 1]) == Accepted(c, frames[..i + 1]);
  }

  // ---------------------------------------------------------------------------
  // The behaviour the callers rely on

  /** Confirm after some valid value: success, with the most recent valid selection. */
  lemma ConfirmReturnsLastValid<T>(c: Constraint<T>, d: T, frames: seq<Frame<T>>, i: nat, j: nat)
    requires StopsAt(frames, i) && frames[i].confirm
    requires j <= i && Valid(c, frames[j].selected)
    requires forall m :: j < m <= i ==> !Valid(c, frames[m].selected)
    ensures RequestValue(c, d, frames).Finished?
    ensures RequestValue(c, d, frames).wasSuccessful
    ensures RequestValue(c, d, frames).value == frames[j].selected
    ensures RequestValue(c, d, frames).frame == i
  {
    PollStops(c, frames, Loop(d, false, []), 0, i, d);
    AcceptedLast(c, frames[..i + 1], j, d);
    AcceptedEmpty(c, frames[..i + 1]);
    assert frames[..i + 1][j] == frames[j];
  }

  /** Confirm before any value passed the constraint: failure, with the default value. */
  lemma ConfirmWithoutValidFails<T>(c: Constraint<T>, d: T, frames: seq<Frame<T>>, i: nat)
    requires StopsAt(frames, i) && frames[i].confirm
    requires forall m :: 0 <= m <= i ==> !Valid(c, frames[m].selected)
    ensures RequestValue(c, d, frames) == Finished(false, d, [], i)
  {
    PollStops(c, frames, Loop(d, false, []), 0, i, d);
    AcceptedEmpty(c, frames[..i + 1]);
  }

  /** Cancel without confirm on the stopping frame never succeeds, however many values were valid. */
  lemma CancelFails<T>(c: Constraint<T>, d: T, frames: seq<Frame<T>>, i: nat)
    requires StopsAt(frames, i) && !frames[i].confirm
    ensures RequestValue(c, d, frames).Finished?
    ensures !RequestValue(c, d, frames).wasSuccessful
    ensures RequestValue(c, d, frames).frame == i
  {
    PollStops(c, frames, Loop(d, false, []), 0, i, d);
  }

  /** A cancel on the same frame as a confirm makes no difference. */
  lemma ConfirmBeatsCancel<T>(c: Constraint<T>, d: T, frames: seq<Frame<T>>, i: nat)
    requires i < |frames| && frames[i].confirm
    ensures RequestValue(c, d, frames) == RequestValue(c, d, frames[i := frames[i].(cancel := false)])
  {
    var other := frames[i := frames[i].(cancel := false)];
    var s := FirstFiring(frames).value;
    SameStop(frames, other, i, s);
    SameAccepted(c, frames, other, i, s);
    PollStops(c, frames, Loop(d, false, []), 0, s, d);
    PollStops(c, other, Loop(d, false, []), 0, s, d);
  }

  /** Clearing cancel on a confirming frame keeps the stopping frame. */
  lemma SameStop<T>(frames: seq<Frame<T>>, other: seq<Frame<T>>, i: nat, s: nat)
    requires i < |frames| && frames[i].confirm && other == frames[i := frames[i].(cancel := false)]
    requires StopsAt(frames, s)
    ensures StopsAt(other, s) && s <= i && other[s].confirm == frames[s].confirm
  {
  }

  /** ... and the selections accepted up to it. */
  lemma SameAccepted<T>(c: Constraint<T>, frames: seq<Frame<T>>, other: seq<Frame<T>>, i: nat, s: nat)
    requires i < |frames| && other == frames[i := frames[i].(cancel := false)]
    requires s <= i
    ensures Accepted(c, frames[..s + 1]) == Accepted(c, other[..s + 1])
  {
    if s < i {
      assert frames[..s + 1] == other[..s + 1];
    } else {
      assert frames[..i + 1] == frames[..i] + [frames[i]];
      assert other[..i + 1] == frames[..i] + [other[i]];
      AcceptedConcat(c, frames[..i], [frames[i]]);
      AcceptedConcat(c, frames[..i], [other[i]]);
      assert Accepted(c, [frames[i]]) == Accepted(c, [other[i]]) by {
        assert [frames[i]][1..] == [] == [other[i]][1..];
      }
    }
  }

  /** Frames after the first one that fires are never looked at. */
  lemma IgnoresLaterFrames<T>(c: Constraint<T>, d: T, frames: seq<Frame<T>>, i: nat, later: seq<Frame<T>>)
    requires StopsAt(frames, i)
    ensures RequestValue(c, d, frames + later) == RequestValue(c, d, frames)
  {
    assert (frames + later)[..i + 1] == frames[..i + 1];
    assert StopsAt(frames + later, i);
    PollStops(c, frames, Loop(d, false, []), 0, i, d);
    PollStops(c, frames + later, Loop(d, false, []), 0, i, d);
  }

  /** `update` receives exactly the valid selections, once per frame, in frame order,
      up to and including the frame the loop stops on. */
  lemma UpdatesAreAcceptedSelections<T>(c: Constraint<T>, d: T, frames: seq<Frame<T>>)
    ensures var r := RequestValue(c, d, frames);
            && (forall v :: v in r.updates ==> Valid(c, v))
            && (r.Finished? ==> r.frame < |frames| && r.updates == Accepted(c, frames[..r.frame + 1]))
            && (r.Pending? ==> r.updates == Accepted(c, frames))
  {
    RequestValueMeaning(c, d, frames);
    match FirstFiring(frames)
    case None =>
      AcceptedAreValid(c, frames);
    case Some(i) =>
      AcceptedAreValid(c, frames[..i + 1]);
  }

  /** A successful request returns a value that passed the constraint and was reported to `update`. */
  lemma SuccessIsValid<T>(c: Constraint<T>, d: T, frames: seq<Frame<T>>)
    ensures var r := RequestValue(c, d, frames);
            r.Finished? && r.wasSuccessful ==> Valid(c, r.value) && r.value in r.updates
  {
    UpdatesAreAcceptedSelections(c, d, frames);
    RequestValueMeaning(c, d, frames);
  }

  /** With a null constraint, `update` sees every selection up to the stopping frame. */
  lemma NullConstraintAcceptsAll<T>(d: T, frames: seq<Frame<T>>)
    ensures var r := RequestValue(None, d, frames);
            var n := if r.Finished? then r.frame + 1 else |frames|;
            && n <= |frames|
            && |r.updates| == n
            && forall k :: 0 <= k < n ==> r.updates[k] == frames[k].selected
  {
    RequestValueMeaning(None, d, frames);
    match FirstFiring(frames)
    case None =>
      AcceptedWithoutConstraint(frames);
    case Some(i) =>
      AcceptedWithoutConstraint(frames[..i + 1]);
  }
}
