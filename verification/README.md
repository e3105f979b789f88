# ArcCreate cursor requests and level list, modelled in Dafny

This project models two pieces of decision logic from the ArcCreate chart
editor and song-selection screen, with the Unity engine around them removed.

- **The cursor service** (`CursorService`). Editor tools ask the user to pick a
  timing, a lane or a point on the vertical plane. `RequestValue` polls once per
  frame. It keeps the latest selection that passes the caller's constraint and
  reports it to `update`. It stops on confirm, which is checked first, or on
  cancel. It succeeds only when confirm comes after some valid selection. The
  three wrappers add a lane-range constraint and switch the lane cursor or the
  vertical collider on for the duration. The per-frame `Update` decides whether
  the lane cursor or the vertical cursor is drawn. A mouse-wheel scroll moves
  the chart timing, clamped to a window around the current timing.
- **The level list** (`LevelList`). These are the handlers for storage
  changes, pack selection and chart selection. They decide when the list is
  rebuilt and which builder fills it. They decide when the user is sent back to
  the pack list, and which cell a focus scrolls to.

Files:

- `nullable.dfy`: `Option`, standing for C#'s `null`.
- `request.dfy` (module `SelectionRequest`): `RequestValue` as a fold over a
  finite frame trace. Beside it is an independent reference (`Expected`, built
  from `StopsAt`, `Accepted` and `LastOr`), proved equal to the loop on every
  trace, plus the caller-facing properties.
- `cursor.dfy` (module `Cursor`): `Update`, `ForceUpdateLaneCursor`, the
  `CheckScroll` clamp and the three selection requests.
- `level_list.dfy` (module `LevelList`): the handlers as pure transitions over
  the controller's fields. They record the calls that reach outside the
  controller as a list of `Effect`s.

Modelling choices:

- The `await UniTask.NextFrame()` loop becomes a fold over `seq<Frame<T>>`. A
  trace with no confirm and no cancel gives `Pending`, because the real loop
  would still be waiting.
- The reply lists the values that `update` received and the index of the
  frame the loop stopped on.
- A cancelled request returns `(false, last valid value)`, or the default
  value when nothing was valid, because the code returns `result` rather than
  `default`.
- Each selection request returns the cursor state on entry, the reply, and the
  entry state with the request's own closing write applied. While the reply is
  pending, that closing write has not run yet. The fields that `Update` writes
  between frames (`selectingTiming`, `isHittingLane`, the cursors) are not
  tracked in that last state. It says only what the request itself changes.
  `Update` never changes the request flags (`UpdatesKeepRequestFlags`). So the
  flag a request sets stays set for every frame of the request, unless a caller
  writes `EnableLaneCursor` or another, overlapping request ends and clears it.
- Each request's reply is exactly the polling loop's reply (`RequestValue`),
  so the loop's properties apply to the three requests.
- `Gameplay.Values.LaneFrom` and `LaneTo` are not part of this model. They are
  the parameter `LaneRange`.
- Raycasts, float coordinate transforms and grid snapping happen before the
  model sees anything. They arrive as `Sensors`: the lane hit already carries
  the snapped timing and lane. For `CheckScroll`, the float threshold and
  sensitivity become `Wheel`, and the grid's forward and backward moves
  become the functions of `Grid`.
- Some `LevelList` collaborators are not part of this model: the storage
  queries, `LevelListBuilder.Build` and `Filter`, and
  `ChartSettings.IsSameDifficulty`. They are uninterpreted functions in
  `Collaborators`. The storage's current values are a `Storage` snapshot.
- Reference comparison of packs (`SelectedPack.Value != currentPack`) is value
  equality of `Pack`.
- The scroll tween is represented only by its target: `scrollTarget`, the
  index of the hierarchy item the latest focus sent the tween to.

## Model

| member | source | states |
|---|---|---|
| SelectionRequest.RequestValueMeaning | Assets/Scripts/Compose/Cursor/CursorService.cs:287-325 | On every frame trace, the polling loop returns what the reference says. It stops at the first frame with confirm or cancel. Success means confirm and at least one valid value up to that frame. The value is the last valid one, or the default. `update` sees the valid values in order. With no confirm or cancel, the request is pending. |
| SelectionRequest.ConfirmReturnsLastValid | Assets/Scripts/Compose/Cursor/CursorService.cs:298-312 | When the stopping frame confirms and frame j holds the last valid selection up to it, the request succeeds with frame j's value on that frame. |
| SelectionRequest.ConfirmWithoutValidFails | Assets/Scripts/Compose/Cursor/CursorService.cs:294-312 | Confirm before any selection passed the constraint returns `(false, default)`, and `update` was never called. |
| SelectionRequest.CancelFails | Assets/Scripts/Compose/Cursor/CursorService.cs:315-319 | A stop by cancel without confirm is unsuccessful, however many values were valid. |
| SelectionRequest.ConfirmBeatsCancel | Assets/Scripts/Compose/Cursor/CursorService.cs:309-319 | When confirm fires, a cancel on the same frame changes nothing. |
| SelectionRequest.IgnoresLaterFrames | Assets/Scripts/Compose/Cursor/CursorService.cs:309-322 | The loop stops at the first firing frame. Frames after it do not affect the reply. |
| SelectionRequest.UpdatesAreAcceptedSelections | Assets/Scripts/Compose/Cursor/CursorService.cs:300-307 | `update` is called once per frame whose selection is valid, with that selection, in frame order, up to the stopping frame. It is never called with an invalid value. |
| SelectionRequest.SuccessIsValid | Assets/Scripts/Compose/Cursor/CursorService.cs:300-312 | A successful reply carries a value that passed the constraint and was reported to `update`. |
| SelectionRequest.NullConstraintAcceptsAll | Assets/Scripts/Compose/Cursor/CursorService.cs:301-307 | With a null constraint, `update` receives every frame's selection up to the stopping frame. |
| Cursor.RequestTimingSelection | Assets/Scripts/Compose/Cursor/CursorService.cs:47-63 | The reply is the polling loop's reply for the caller's constraint with default 0, so `RequestValueMeaning` describes it. The lane cursor is enabled on entry and disabled once the request ends. The request itself writes no other field. A successful timing, and every timing sent to `update`, satisfies the constraint. |
| Cursor.RequestLaneSelection | Assets/Scripts/Compose/Cursor/CursorService.cs:65-81 | The reply is the polling loop's reply with default 0. The lane cursor flag behaves as in the timing request. The loop runs with the caller's constraint narrowed to the playfield (`LaneConstraint`): a lane passes exactly when the caller's constraint, if any, accepts it and it lies in `LaneFrom..LaneTo`. So a successful lane, and every lane sent to `update`, satisfies both. |
| Cursor.RequestVerticalSelection | Assets/Scripts/Compose/Cursor/CursorService.cs:83-101 | The reply is the polling loop's reply for the caller's constraint, with `origin`, standing for `default(Vector2)`, as the default. The vertical collider is active on entry, with the given display timing, and inactive once the request ends. A successful point satisfies the constraint. With no valid point, the default point is returned. |
| Cursor.Update | Assets/Scripts/Compose/Cursor/CursorService.cs:139-186 | Nothing happens before gameplay is loaded. Outside the viewport, or under a dialog, only the viewport flag changes. Otherwise `isHittingLane == isLaneCursorEnabled && hovering`, and the scroll is checked exactly when hovering. The vertical cursor shows exactly when the vertical collider is hit. The lane cursor shows exactly when the lane is hit and the vertical collider is not, so both never show together. The selection moves only to the lane hit. The request flags never change. |
| Cursor.UpdatesKeepRequestFlags | Assets/Scripts/Compose/Cursor/CursorService.cs:139-186 | Any number of `Update` frames leave the lane-cursor flag, the vertical-collider flag and the vertical display timing unchanged. |
| Cursor.LaneRequestHitsWhenHovering | Assets/Scripts/Compose/Cursor/CursorService.cs:154-156 | During a lane request, after any number of `Update` frames, a frame over the viewport hits the lane exactly when the track is hovered. This holds unless a caller writes `EnableLaneCursor` or an overlapping request ends in between; neither is part of the frame run. |
| Cursor.LaneRequestSucceedsExactly | Assets/Scripts/Compose/Cursor/CursorService.cs:65-81 | The lane request succeeds exactly when it stops on a confirming frame and some frame up to that one selected a lane the caller accepts inside `LaneFrom..LaneTo`. |
| Cursor.ForceUpdateLaneCursor | Assets/Scripts/Compose/Cursor/CursorService.cs:126-137 | `isHittingLane == isLaneCursorEnabled && hovering`. A hovered track aligns the lane cursor and the selection, even with the lane cursor disabled. Otherwise only `isHittingLane` changes. In either case no field outside the lane hit and the lane cursor's alignment changes. |
| Cursor.ForceUpdateAgreesWithUpdate | Assets/Scripts/Compose/Cursor/CursorService.cs:126-166 | Over the viewport, with no vertical hit and the lane cursor enabled, forcing the lane cursor gives the same lane hit and selection as a frame of `Update`. |
| Cursor.Clamp | Assets/Scripts/Compose/Cursor/CursorService.cs:200 | For `min <= max`, the result lies in `[min, max]` and is the point of that window nearest the value. |
| Cursor.CheckScroll | Assets/Scripts/Compose/Cursor/CursorService.cs:188-203 | A chart timing is written exactly when the wheel moved. It lies within `TrackScrollMaxMovement` of the current timing. It is the point of that window nearest the grid's snapped move: the move itself when it is inside the window, the nearer end of the window when it overshoots. |
| LevelList.IsNullOrWhiteSpace | Assets/Scripts/Selection/Interface/LevelList.cs:160 | True exactly for a null query or one made only of .NET white-space characters. |
| LevelList.FindLevelCell | Assets/Scripts/Selection/Interface/LevelList.cs:193-201 | Returns the first index whose cell is a level cell with the level's Id, or none when no such cell exists. |
| LevelList.FocusOnLevel | Assets/Scripts/Selection/Interface/LevelList.cs:185-212 | Only the scroll target can change. A null level, or one with no matching cell, leaves it unchanged. Otherwise the target is the first matching level cell. |
| LevelList.FocusIsIdempotent | Assets/Scripts/Selection/Interface/LevelList.cs:185-212 | Focusing twice on the same level is the same as focusing once. |
| LevelList.RebuildList | Assets/Scripts/Selection/Interface/LevelList.cs:140-183 | Outside the level list nothing changes. The selected pack's levels are fetched first. An empty, non-null list goes back to the pack list, without new data and without a focus. A null list does not. Only the selected pack is fetched, and no call is made twice. A blank query uses `Build` with the group and sort strategies, and any other query uses `Filter`. The slide-in animation plays exactly when the list had cells before. The rebuilt list is focused on the current level. |
| LevelList.OnStorageChange | Assets/Scripts/Selection/Interface/LevelList.cs:75-80 | The controller takes over the storage's pack, level and chart. Its list, focus and effects are then exactly those of `RebuildList` on that selection, so the rebuild's guarantees apply to this handler. |
| LevelList.Awake | Assets/Scripts/Selection/Interface/LevelList.cs:55-58 | A fresh controller rebuilds from storage exactly when storage is loaded and the user was last in the level list. In that case the result is exactly `OnStorageChange` on the fresh controller. Otherwise it is the fresh controller with no effects. |
| LevelList.OnSelectedPack | Assets/Scripts/Selection/Interface/LevelList.cs:82-123 | The controller is in the level list, and `currentPack` is the new pack. Of the storage, only the selected level and chart can change. A null pack falls back to the overall last chart and always rebuilds. A non-null pack rebuilds exactly when the current level is non-null and the pack holds a level with its Id. In both rebuilding cases the list, the scroll target and the effects are those of `RebuildList`: after the fall-back's write for a null pack, on the unchanged selection otherwise. Otherwise it falls back to the pack's last chart, only when both its halves are non-null. The handler itself leaves the list untouched. The storage write then reaches `OnSelectedChart`, which this handler does not run (see the `SelectedChart.Value` line under Left out); `FallBackWriteRebuilds` states what that nested call does. |
| LevelList.OnSelectedChart | Assets/Scripts/Selection/Interface/LevelList.cs:125-138 | Rebuilds exactly when the difficulty changed or the selected pack differs from `currentPack`. A rebuild replaces the list with `RebuildList`'s list and emits its effects. Without a rebuild there are no effects and the cells do not change. Afterwards `currentChart` and `currentLevel` are the selected pair. The target is the level's first cell in the resulting list. With no such cell, the target stays as the rebuild left it, or as it was. |
| LevelList.RepeatedChartSelectionIsQuiet | Assets/Scripts/Selection/Interface/LevelList.cs:125-138 | When the selected pack is unchanged and a chart has the same difficulty as itself, selecting the same chart a second time does not rebuild. |
| LevelList.SelectedPackSettles | Assets/Scripts/Selection/Interface/LevelList.cs:82-138 | After a pack selection, the next chart selection rebuilds only when the difficulty changed. |
| LevelList.OutsideLevelListIsKept | Assets/Scripts/Selection/Interface/LevelList.cs:125-145 | A controller outside the level list stays outside it, with its list unchanged, under any sequence of storage changes and chart selections. |
| LevelList.AwakeOutsideLevelListStaysEmpty | Assets/Scripts/Selection/Interface/LevelList.cs:55-58 | A controller that starts while the user was not last in the level list keeps an empty list under any sequence of storage changes and chart selections. |
| LevelList.FallBackWriteRebuilds | Assets/Scripts/Selection/Interface/LevelList.cs:108-132 | A new pack lacks the current level, and storage remembers its last chart. Writing that chart reaches `OnSelectedChart` while `currentPack` is still the old pack. When the packs differ, that nested call rebuilds from the new selection. |
## Left out

- Raycasting, `LineRenderer` drawing, camera and screen transforms and `RectangleContainsScreenPoint` are engine calls. Their results arrive as `Sensors`.
- Floating-point arithmetic is left out: the `ArcFormula` conversions, the rounding to three decimals in `AlignVerticalCursor`, the vertical scale division, and the scroll threshold and sensitivity in `CheckScroll`. The vertical selection point is an abstract type `P`. `selectingVerticalPoint` is not part of `CursorState`.
- `UpdateVerticalZPosition` is reported only as having run (`verticalZUpdated`). Its z computation is floating point.
- Frame waiting (`UniTask.NextFrame`) becomes an explicit finite frame trace. A loop that never confirms or cancels appears as `Pending`.
- DOTween tweens and easing, `Pools` setup and teardown, and event subscription in `Awake`/`OnDestroy` are engine lifecycle. Only the scroll target and the `SlideIn` effect remain.
- The public `EnableLaneCursor` setter is not modelled as an operation. A caller that writes it, or an overlapping request whose closing write clears it, can change the lane flag while a request runs.
- The caller's `constraint` and `update` callbacks are total functions here and never throw. In the C# code the request clears its flag (`isLaneCursorEnabled`, or the vertical collider) with a plain statement after the loop, not in a `finally`. So a throwing callback would leave the flag or the collider on; `Session.after` does not model that exit.
- `KillTween` (a click or drag on the scroll view stops the running tween) is tween bookkeeping and is not modelled.
- `SnapTimingToGridIfGridIsEnabled`, `MoveTimingForward`/`Backward`, `LevelListBuilder.Build`/`Filter`, the `StorageData` queries and `IsSameDifficulty` are not part of this model. They are uninterpreted inputs.
- The editor-only `TestCursor` action only prints.
- Writing `SelectedChart.Value` fires the storage's change event, which may call `OnSelectedChart` re-entrantly. `StorageData` is not part of this model, so that write is recorded as a `SelectChart` effect plus an updated storage snapshot. The nested handler is not run in between.
- Cursor.CheckScroll: does not model 32-bit wrap-around of `timing ± TrackScrollMaxMovement`, because timings are unbounded integers here.
- Cursor.Clamp: for an inverted window (a negative `TrackScrollMaxMovement`), it states only that the result is one of the bounds.
- A null `pack.Levels` in `OnSelectedPack`, and a null selected chart passed to `IsSameDifficulty`, would throw in the C# code (the latter unless `IsSameDifficulty` is an extension method that accepts null). Pack levels are always a list here, and the difficulty comparison takes nullable charts.
