/**
  The event handlers of the level list on the song-selection screen
  (`LevelList`): when the list is rebuilt, which builder fills it, when the
  controller falls back to the pack list, which cell a focus scrolls to, and
  how a newly selected pack is reconciled with the current level.

  The handlers are pure transitions over the controller's fields. The storage
  is a snapshot (`Storage`); the storage queries, the list builders and the
  difficulty comparison, whose code is not part of this model, are the
  uninterpreted functions of `Collaborators`. Calls with a visible effect
  outside the controller are recorded, in order, as `Effect`s.
 */
module LevelList {
  import opened Nullable

  /** A level; only its database Id is observed by the list. */
  datatype Level = Level(id: int)

  /** A chart (difficulty) of a level, known by its path. */
  datatype Chart = Chart(path: string)

  /** A pack of levels. */
  datatype Pack = Pack(identifier: string, levels: seq<Level>)

  /** A cell of the scroll list. */
  datatype Cell = LevelCell(level: Level) | DifficultyCell(chart: Chart) | GroupCell(title: string)

  /** The controller's fields; `lastWasInLevelList` is static in the C# class and
      so outlives the controller. `scrollTarget` is the index of the hierarchy
      item the latest scroll tween was sent to, if any. */
  datatype ListState = ListState(
    currentPack: Option<Pack>,
    currentLevel: Option<Level>,
    currentChart: Option<Chart>,
    lastWasInLevelList: bool,
    data: seq<Cell>,
    scrollTarget: Option<nat>)

  /** What the handlers read from storage: `SelectedPack.Value`,
      `SelectedChart.Value`, `GetAllLevels()` and `IsLoaded`. */
  datatype Storage = Storage(
    selectedPack: Option<Pack>,
    selectedLevel: Option<Level>,
    selectedChart: Option<Chart>,
    allLevels: Option<seq<Level>>,
    isLoaded: bool)

  /** The list options: search query and the names of the group and sort strategies. */
  datatype Options = Options(searchQuery: Option<string>, groupStrategy: string, sortStrategy: string)

  /** Code this model does not see. */
  datatype Collaborators = Collaborators(
    // a pack's `Levels` once `FetchLevelsForPack` has run
    fetchedLevels: Pack -> Option<seq<Level>>,
    // `GetLastSelectedChart(packIdentifier)`
    lastSelectedChart: Option<string> -> (Option<Level>, Option<Chart>),
    // `LevelListBuilder.Build(levels, chart, group, sort)`
    build: (Option<seq<Level>>, Option<Chart>, string, string) -> seq<Cell>,
    // `LevelListBuilder.Filter(levels, chart, query)`
    filter: (Option<seq<Level>>, Option<Chart>, string) -> seq<Cell>,
    // `chart.IsSameDifficulty(other, false)`
    sameDifficulty: (Option<Chart>, Option<Chart>) -> bool)

  /** Calls with effects outside the controller. `Rebuild` marks each call of
      `RebuildList`, whether or not it goes on to change the list. */
  datatype Effect =
    | Rebuild
    | Fetch(pack: Pack)
    | BackToPackList
    | SlideIn
    | SelectChart(level: Level, chart: Chart)

  datatype Step = Step(state: ListState, storage: Storage, effects: seq<Effect>)

  // ---------------------------------------------------------------------------
  // Search query

  /** .NET's `char.IsWhiteSpace`. */
  predicate IsWhiteSpace(ch: char) {
    || ('\U{0009}' <= ch <= '\U{000D}')
    || ch == '\U{0020}' || ch == '\U{0085}' || ch == '\U{00A0}' || ch == '\U{1680}'
    || ('\U{2000}' <= ch <= '\U{200A}')
    || ch == '\U{2028}' || ch == '\U{2029}' || ch == '\U{202F}' || ch == '\U{205F}' || ch == '\U{3000}'
  }

  /** .NET's `string.IsNullOrWhiteSpace`, scanning from the first character. */
  function IsNullOrWhiteSpace(q: Option<string>): (r: bool)
    ensures r <==> q.None? || forall i :: 0 <= i < |q.value| ==> IsWhiteSpace(q.value[i])
  {
    match q
    case None => true
    case Some(text) => AllWhiteSpaceFrom(text, 0)
  }

  function AllWhiteSpaceFrom(text: string, i: nat): (r: bool)
    requires i <= |text|
    ensures r <==> forall j :: i <= j < |text| ==> IsWhiteSpace(text[j])
    decreases |text| - i
  {
    if i == |text| then true
    else if !IsWhiteSpace(text[i]) then false
    else AllWhiteSpaceFrom(text, i + 1)
  }

  // ---------------------------------------------------------------------------
  // Focus

  /** The cell shows the given level (same Id). */
  predicate IsCellOf(cell: Cell, level: Level) {
    cell.LevelCell? && cell.level.id == level.id
  }

  /** The first index at or after `i` whose cell shows `level`. */
  function FindLevelCell(data: seq<Cell>, level: Level, i: nat): (r: Option<nat>)
    requires i <= |data|
    ensures r.Some? ==> i <= r.value < |data| && IsCellOf(data[r.value], level)
    ensures r.Some? ==> forall j :: i <= j < r.value ==> !IsCellOf(data[j], level)
    ensures r.None? ==> forall j :: i <= j < |data| ==> !IsCellOf(data[j], level)
    decreases |data| - i
  {
    if i == |data| then None
    else if IsCellOf(data[i], level) then Some(i)
    else FindLevelCell(data, level, i + 1)
  }

  /** `FocusOnLevel`: start a scroll tween to the first cell of the level, if any. */
  function FocusOnLevel(s: ListState, level: Option<Level>): (r: ListState)
    ensures r == s.(scrollTarget := r.scrollTarget)
    ensures level.None? ==> r == s
    ensures level.Some? && (forall j :: 0 <= j < |s.data| ==> !IsCellOf(s.data[j], level.value)) ==> r == s
    ensures level.Some? && (exists j :: 0 <= j < |s.data| && IsCellOf(s.data[j], level.value)) ==>
              && r.scrollTarget.Some?
              && r.scrollTarget.value < |s.data|
              && IsCellOf(s.data[r.scrollTarget.value], level.value)
              && forall j :: 0 <= j < r.scrollTarget.value ==> !IsCellOf(s.data[j], level.value)
  {
    match level
    case None => s
    case Some(l) =>
      match FindLevelCell(s.data, l, 0)
      case None => s
      case Some(i) => s.(scrollTarget := Some(i))
  }

  // ---------------------------------------------------------------------------
  // Rebuilding

  /** The list handed to the builder: the selected pack's levels (after the
      fetch), or, when there is no pack or its list is null, all levels. */
  function LevelsToList(st: Storage, co: Collaborators): Option<seq<Level>> {
    match st.selectedPack
    case Some(p) =>
      (match co.fetchedLevels(p)
       case Some(levels) => Some(levels)
       case None => st.allLevels)
    case None => st.allLevels
  }

  /** `RebuildList`. */
  function RebuildList(s: ListState, st: Storage, opt: Options, co: Collaborators): (r: Step)
    ensures r.storage == st
    ensures |r.effects| > 0 && r.effects[0] == Rebuild && Rebuild !in r.effects[1..]
    ensures forall e :: e in r.effects ==> !e.SelectChart?
    // only the list and the scroll target change
    ensures r.state == s.(data := r.state.data, scrollTarget := r.state.scrollTarget)
    // outside the level list nothing happens
    ensures !s.lastWasInLevelList ==> r == Step(s, st, [Rebuild])
    // the pack's levels are fetched first when a pack is selected
    ensures s.lastWasInLevelList && st.selectedPack.Some? ==> |r.effects| > 1 && r.effects[1] == Fetch(st.selectedPack.value)
    ensures (exists p :: Fetch(p) in r.effects) <==> s.lastWasInLevelList && st.selectedPack.Some?
    // only the selected pack is fetched, and no call is made twice
    ensures forall p :: Fetch(p) in r.effects ==> st.selectedPack == Some(p)
    ensures forall i, j :: 0 <= i < j < |r.effects| ==> r.effects[i] != r.effects[j]
    // an empty list (but not a null one) goes back to the pack list, and nothing else changes
    ensures BackToPackList in r.effects <==> s.lastWasInLevelList && LevelsToList(st, co) == Some([])
    ensures BackToPackList in r.effects ==> r.state == s
    // the builder: Build for a blank query, Filter otherwise
    ensures s.lastWasInLevelList && LevelsToList(st, co) != Some([]) ==>
              var q := opt.searchQuery;
              && (q.None? || (forall i :: 0 <= i < |q.value| ==> IsWhiteSpace(q.value[i])) ==>
                    r.state.data == co.build(LevelsToList(st, co), st.selectedChart, opt.groupStrategy, opt.sortStrategy))
              && (q.Some? && (exists i :: 0 <= i < |q.value| && !IsWhiteSpace(q.value[i])) ==>
                    r.state.data == co.filter(LevelsToList(st, co), st.selectedChart, q.value))
    // the slide-in animation plays only if the list had cells before
    ensures SlideIn in r.effects <==> s.lastWasInLevelList && LevelsToList(st, co) != Some([]) && |s.data| > 0
    // after building, focus on the current level
    ensures s.lastWasInLevelList && LevelsToList(st, co) != Some([]) ==>
              r.state == FocusOnLevel(s.(data := r.state.data), s.currentLevel)
  {
    if !s.lastWasInLevelList then Step(s, st, [Rebuild])
    else
      var fetch := if st.selectedPack.Some? then [Fetch(st.selectedPack.value)] else [];
      var levels := LevelsToList(st, co);
      if levels == Some([]) then Step(s, st, [Rebuild] + fetch + [BackToPackList])
      else
        var data := if IsNullOrWhiteSpace(opt.searchQuery)
                    then co.build(levels, st.selectedChart, opt.groupStrategy, opt.sortStrategy)
                    else co.filter(levels, st.selectedChart, opt.searchQuery.value);
        var slide := if |s.data| > 0 then [SlideIn] else [];
        Step(FocusOnLevel(s.(data := data), s.currentLevel), st, [Rebuild] + fetch + slide)
  }

  // ---------------------------------------------------------------------------
  // Event handlers

  /** `OnStorageChange`: take over the storage's selection, then rebuild. */
  function OnStorageChange(s: ListState, st: Storage, opt: Options, co: Collaborators): (r: Step)
    ensures r.state.currentPack == st.selectedPack
    ensures r.state.currentLevel == st.selectedLevel
    ensures r.state.currentChart == st.selectedChart
    ensures r.state.lastWasInLevelList == s.lastWasInLevelList
    // the list, focus and effects are those of a rebuild on the taken-over selection
    ensures r == RebuildList(s.(currentPack := st.selectedPack, currentLevel := st.selectedLevel,
                                currentChart := st.selectedChart), st, opt, co)
    ensures |r.effects| > 0 && r.effects[0] == Rebuild
  {
    var s1 := s.(currentPack := st.selectedPack, currentLevel := st.selectedLevel, currentChart := st.selectedChart);
    RebuildList(s1, st, opt, co)
  }

  /** The controller's start-up (`Awake`): a fresh controller, rebuilt from
      storage only when storage is loaded and the user was last in the level list. */
  function Awake(lastWasInLevelList: bool, st: Storage, opt: Options, co: Collaborators): (r: Step)
    ensures r.state.lastWasInLevelList == lastWasInLevelList
    ensures Rebuild in r.effects <==> st.isLoaded && lastWasInLevelList
    ensures !(st.isLoaded && lastWasInLevelList) ==>
              r == Step(ListState(None, None, None, lastWasInLevelList, [], None), st, [])
    // otherwise the fresh controller takes over storage's selection and rebuilds
    ensures st.isLoaded && lastWasInLevelList ==>
              r == OnStorageChange(ListState(None, None, None, true, [], None), st, opt, co)
  {
    var initial := ListState(None, None, None, lastWasInLevelList, [], None);
    if st.isLoaded && lastWasInLevelList then OnStorageChange(initial, st, opt, co) else Step(initial, st, [])
  }

  /** Does the pack hold a level with the current level's Id (the `foreach` over `pack.Levels`)? */
  predicate HoldsCurrentLevel(levels: seq<Level>, current: Option<Level>) {
    exists i :: 0 <= i < |levels| && current.Some? && levels[i].id == current.value.id
  }

  /** Select the last chart played in a pack, when storage remembers both a level and a chart. */
  function FallBack(s: ListState, st: Storage, last: (Option<Level>, Option<Chart>)): (r: Step)
    // only the current level and the storage's selection can change
    ensures r.state == s.(currentLevel := r.state.currentLevel)
    ensures r.storage == st.(selectedLevel := r.storage.selectedLevel, selectedChart := r.storage.selectedChart)
    // at most one write, made exactly when both halves are known
    ensures |r.effects| <= 1
    ensures |r.effects| == 1 <==> last.0.Some? && last.1.Some?
    // a write leaves the controller and the storage agreeing on that selection
    ensures |r.effects| == 1 ==>
              && r.state.currentLevel.Some? && r.storage.selectedChart.Some?
              && r.effects[0] == SelectChart(r.state.currentLevel.value, r.storage.selectedChart.value)
              && r.storage.selectedLevel == r.state.currentLevel == last.0
              && r.storage.selectedChart == last.1
    ensures |r.effects| == 0 ==> r == Step(s, st, [])
  {
    if last.0.Some? && last.1.Some? then
      Step(s.(currentLevel := last.0), st.(selectedLevel := last.0, selectedChart := last.1),
           [SelectChart(last.0.value, last.1.value)])
    else Step(s, st, [])
  }

  /** `OnSelectedPack`. */
  function OnSelectedPack(s: ListState, st: Storage, opt: Options, co: Collaborators, pack: Option<Pack>): (r: Step)
    ensures r.state.lastWasInLevelList
    ensures r.state.currentPack == pack
    ensures r.state.currentChart == s.currentChart
    // of the storage, only the selected level and chart can be written
    ensures r.storage == st.(selectedLevel := r.storage.selectedLevel, selectedChart := r.storage.selectedChart)
    // a null pack: fall back to the last chart overall, then always rebuild
    ensures pack.None? ==> Rebuild in r.effects
    ensures pack.None? ==>
              var last := co.lastSelectedChart(None);
              && (last.0.Some? && last.1.Some? ==>
                    |r.effects| > 0 && r.effects[0] == SelectChart(last.0.value, last.1.value)
                    && r.state.currentLevel == last.0
                    && r.storage.selectedLevel == last.0 && r.storage.selectedChart == last.1)
              && (!(last.0.Some? && last.1.Some?) ==>
                    r.state.currentLevel == s.currentLevel && r.storage == st
                    && forall e :: e in r.effects ==> !e.SelectChart?)
    // ... and the list, target and effects are those of a rebuild after the fall-back
    ensures pack.None? ==>
              var w := FallBack(s.(lastWasInLevelList := true), st, co.lastSelectedChart(None));
              var b := RebuildList(w.state, w.storage, opt, co);
              && r.state.data == b.state.data && r.state.scrollTarget == b.state.scrollTarget
              && r.effects == w.effects + b.effects
    // a pack that holds the current level is shown as it is
    ensures pack.Some? ==> (Rebuild in r.effects <==> HoldsCurrentLevel(pack.value.levels, s.currentLevel))
    ensures pack.Some? && HoldsCurrentLevel(pack.value.levels, s.currentLevel) ==>
              r.state.currentLevel == s.currentLevel && r.storage == st && forall e :: e in r.effects ==> !e.SelectChart?
    ensures pack.Some? && HoldsCurrentLevel(pack.value.levels, s.currentLevel) ==>
              var b := RebuildList(s.(lastWasInLevelList := true), st, opt, co);
              r.state.data == b.state.data && r.state.scrollTarget == b.state.scrollTarget && r.effects == b.effects
    // otherwise the pack's last chart is selected, if storage remembers both halves of it
    ensures pack.Some? && !HoldsCurrentLevel(pack.value.levels, s.currentLevel) ==>
              var last := co.lastSelectedChart(Some(pack.value.identifier));
              && r.state.data == s.data
              && r.state.scrollTarget == s.scrollTarget
              && (last.0.Some? && last.1.Some? ==>
                    r.effects == [SelectChart(last.0.value, last.1.value)] && r.state.currentLevel == last.0
                    && r.storage.selectedLevel == last.0 && r.storage.selectedChart == last.1)
              && (!(last.0.Some? && last.1.Some?) ==>
                    r.effects == [] && r.state.currentLevel == s.currentLevel && r.storage == st)
  {
    var s0 := s.(lastWasInLevelList := true);
    match pack
    case None =>
      var w := FallBack(s0, st, co.lastSelectedChart(None));
      var b := RebuildList(w.state, w.storage, opt, co);
      Step(b.state.(currentPack := pack), b.storage, w.effects + b.effects)
    case Some(p) =>
      if HoldsCurrentLevel(p.levels, s.currentLevel) then
        var b := RebuildList(s0, st, opt, co);
        Step(b.state.(currentPack := pack), b.storage, b.effects)
      else
        var w := FallBack(s0, st, co.lastSelectedChart(Some(p.identifier)));
        Step(w.state.(currentPack := pack), w.storage, w.effects)
  }

  /** `OnSelectedChart`: rebuild if the difficulty or the pack changed, focus on
      the level, then remember the selection. */
  function OnSelectedChart(s: ListState, st: Storage, opt: Options, co: Collaborators,
                           level: Option<Level>, chart: Option<Chart>): (r: Step)
    ensures Rebuild in r.effects <==> !co.sameDifficulty(chart, s.currentChart) || st.selectedPack != s.currentPack
    ensures r.state.currentChart == chart && r.state.currentLevel == level
    ensures r.state.currentPack == s.currentPack && r.state.lastWasInLevelList == s.lastWasInLevelList
    ensures r.storage == st
    ensures co.sameDifficulty(chart, s.currentChart) && st.selectedPack == s.currentPack ==>
              r.effects == [] && r.state.data == s.data
    // a rebuild replaces the list, its effects are the rebuild's
    ensures var rebuilt := RebuildList(s, st, opt, co);
            (!co.sameDifficulty(chart, s.currentChart) || st.selectedPack != s.currentPack) ==>
              r.state.data == rebuilt.state.data && r.effects == rebuilt.effects
    // the focus goes to the first cell of the selected level in the resulting list
    ensures level.Some? && (exists j :: 0 <= j < |r.state.data| && IsCellOf(r.state.data[j], level.value)) ==>
              && r.state.scrollTarget.Some?
              && r.state.scrollTarget.value < |r.state.data|
              && IsCellOf(r.state.data[r.state.scrollTarget.value], level.value)
              && forall j :: 0 <= j < r.state.scrollTarget.value ==> !IsCellOf(r.state.data[j], level.value)
    // with no such cell the target is the one left by the rebuild, or the old one
    ensures level.None? || (forall j :: 0 <= j < |r.state.data| ==> !IsCellOf(r.state.data[j], level.value)) ==>
              r.state.scrollTarget ==
                (if !co.sameDifficulty(chart, s.currentChart) || st.selectedPack != s.currentPack
                 then RebuildList(s, st, opt, co).state.scrollTarget else s.scrollTarget)
  {
    var changed := !co.sameDifficulty(chart, s.currentChart) || st.selectedPack != s.currentPack;
    var b := if changed then RebuildList(s, st, opt, co) else Step(s, st, []);
    var f := FocusOnLevel(b.state, level);
    Step(f.(currentChart := chart, currentLevel := level), b.storage, b.effects)
  }

  // ---------------------------------------------------------------------------
  // How the handlers compose

  /** Focusing twice on the same level targets the same cell as focusing once. */
  lemma FocusIsIdempotent(s: ListState, level: Option<Level>)
    ensures FocusOnLevel(FocusOnLevel(s, level), level) == FocusOnLevel(s, level)
  {
  }

  /** Selecting the same chart again, while the selected pack has not changed,
      does not rebuild the list, provided a chart has the same difficulty as itself. */
  lemma RepeatedChartSelectionIsQuiet(s: ListState, st: Storage, opt: Options, co: Collaborators,
                                      level: Option<Level>, chart: Option<Chart>)
    requires co.sameDifficulty(chart, chart)
    requires st.selectedPack == s.currentPack
    ensures var first := OnSelectedChart(s, st, opt, co, level, chart);
            var second := OnSelectedChart(first.state, first.storage, opt, co, level, chart);
            && second.effects == []
            && second.state.data == first.state.data
            && second.state.currentChart == chart && second.state.currentLevel == level
  {
  }

  /** Once a pack has been selected, the next chart selection from the same
      storage rebuilds only if the difficulty changed: the pack counts as seen. */
  lemma SelectedPackSettles(s: ListState, st: Storage, opt: Options, co: Collaborators,
                            pack: Option<Pack>, level: Option<Level>, chart: Option<Chart>)
    requires st.selectedPack == pack
    ensures var p := OnSelectedPack(s, st, opt, co, pack);
            var c := OnSelectedChart(p.state, p.storage, opt, co, level, chart);
            Rebuild in c.effects <==> !co.sameDifficulty(chart, p.state.currentChart)
  {
  }

  /** The events a controller outside the level list can receive without entering it. */
  datatype Event =
    | StorageChanged(storage: Storage)
    | ChartSelected(storage: Storage, level: Option<Level>, chart: Option<Chart>)

  /** The controller after handling `events` in order. */
  function Run(s: ListState, opt: Options, co: Collaborators, events: seq<Event>): ListState
    decreases |events|
  {
    if |events| == 0 then s
    else
      var next := match events[0]
        case StorageChanged(st) => OnStorageChange(s, st, opt, co)
        case ChartSelected(st, level, chart) => OnSelectedChart(s, st, opt, co, level, chart);
      Run(next.state, opt, co, events[1..])
  }

  /** Until a pack is selected, a controller that starts outside the level list
      stays outside it and never fills its list, whatever storage and chart
      events arrive. */
  lemma {:induction false} OutsideLevelListIsKept(s: ListState, opt: Options, co: Collaborators, events: seq<Event>)
    requires !s.lastWasInLevelList
    ensures !Run(s, opt, co, events).lastWasInLevelList
    ensures Run(s, opt, co, events).data == s.data
    decreases |events|
  {
    if |events| > 0 {
      var next := match events[0]
        case StorageChanged(st) => OnStorageChange(s, st, opt, co)
        case ChartSelected(st, level, chart) => OnSelectedChart(s, st, opt, co, level, chart);
      OutsideLevelListIsKept(next.state, opt, co, events[1..]);
    }
  }

  /** A controller that starts outside the level list keeps an empty list under
      any storage and chart events. */
  lemma AwakeOutsideLevelListStaysEmpty(st: Storage, opt: Options, co: Collaborators, events: seq<Event>)
    ensures Run(Awake(false, st, opt, co).state, opt, co, events).data == []
  {
    OutsideLevelListIsKept(Awake(false, st, opt, co).state, opt, co, events);
  }

  /** When a newly selected pack lacks the current level and storage remembers the
      pack's last chart, the write of that chart reaches `OnSelectedChart` while
      `currentPack` still holds the old pack. If the old pack differs from the new
      one, that nested call rebuilds the list from the new selection. */
  lemma FallBackWriteRebuilds(s: ListState, st: Storage, opt: Options, co: Collaborators, p: Pack)
    requires st.selectedPack == Some(p) && s.currentPack != Some(p)
    requires !HoldsCurrentLevel(p.levels, s.currentLevel)
    requires var last := co.lastSelectedChart(Some(p.identifier)); last.0.Some? && last.1.Some?
    ensures var last := co.lastSelectedChart(Some(p.identifier));
            var w := FallBack(s.(lastWasInLevelList := true), st, last);
            var nested := OnSelectedChart(w.state, w.storage, opt, co, last.0, last.1);
            && Rebuild in nested.effects
            && nested.state.data == RebuildList(w.state, w.storage, opt, co).state.data
            && w.storage.selectedChart == last.1
  {
  }
}
