/** The placement state of the model picker screen: whether placement mode is
    on, the model picked from the strip, and the model confirmed for placement
    that the AR view container has still to pick up. Each user action and each
    scene update is a step on this value; the class in ContentView performs
    the same steps on its fields.

    The scene update does not clear the confirmed slot itself: it queues a
    closure on the main queue that sets the slot to nil later. The queue is
    modelled by `pendingClears`, the number of such closures queued and not yet
    run, and running one is a step of its own, RunDeferredClear. */
module Placement {
  import opened Wrappers

  datatype State = State(
    isPlacementEnabled: bool,
    selectedModel: Option<string>,
    modelConfirmForPlacement: Option<string>,
    pendingClears: nat)

  /** The state the screen starts in: placement off, both slots nil, no
      queued closure. */
  const Initial: State := State(false, None, None, 0)

  /** What can happen to the state: a tap on a thumbnail, the cancel and
      confirm buttons, an update of the AR view, and the main queue running
      one queued clear. */
  datatype Event =
    | TapModel(model: string)
    | Cancel
    | Confirm
    | UpdateView
    | RunDeferredClear

  /** The sub-view shown under the AR view. */
  datatype Overlay = ModelPicker | PlacementButtons

  /** `resetPlacementParameters`: leave placement mode and drop the
      selection, so the screen is idle; the confirmed slot and the queue are
      kept. */
  function ResetPlacementParameters(s: State): (r: State)
    ensures Idle(r) && Consistent(r)
    ensures r.modelConfirmForPlacement == s.modelConfirmForPlacement
    ensures r.pendingClears == s.pendingClears
  {
    s.(isPlacementEnabled := false, selectedModel := None)
  }

  /** One step of the screen. Every step keeps "placement mode on exactly
      when a model is selected"; only a tap can put a new model in the
      selection, the confirmed slot only ever receives the selection or nil,
      and the view update and the queued clear leave the selection and
      placement mode alone. */
  function Step(s: State, e: Event): (r: State)
    ensures Consistent(s) ==> Consistent(r)
    ensures r.selectedModel.Some? ==>
              r.selectedModel == s.selectedModel || e == TapModel(r.selectedModel.value)
    ensures r.modelConfirmForPlacement.Some? ==>
              r.modelConfirmForPlacement == s.modelConfirmForPlacement ||
              r.modelConfirmForPlacement == s.selectedModel
    ensures e.UpdateView? || e.RunDeferredClear? ==>
              r.selectedModel == s.selectedModel && r.isPlacementEnabled == s.isPlacementEnabled
  {
    match e
    case TapModel(m) =>
      s.(selectedModel := Some(m), isPlacementEnabled := true)
    case Cancel =>
      ResetPlacementParameters(s)
    case Confirm =>
      ResetPlacementParameters(s.(modelConfirmForPlacement := s.selectedModel))
    case UpdateView =>
      if s.modelConfirmForPlacement.Some? then s.(pendingClears := s.pendingClears + 1) else s
    case RunDeferredClear =>
      if s.pendingClears > 0
      then s.(modelConfirmForPlacement := None, pendingClears := s.pendingClears - 1)
      else s
  }

  /** The state after a sequence of events. */
  function Run(s: State, events: seq<Event>): State
    decreases |events|
  {
    if |events| == 0 then s else Run(Step(s, events[0]), events[1..])
  }

  /** The branch in `ContentView.body`: the placement buttons while placement
      mode is on, the model picker otherwise. */
  function ShownOverlay(s: State): (o: Overlay)
    ensures o == PlacementButtons <==> s.isPlacementEnabled
    ensures o == ModelPicker <==> !s.isPlacementEnabled
  {
    if s.isPlacementEnabled then PlacementButtons else ModelPicker
  }

  /** The screen is idle: picker shown, nothing selected. */
  predicate Idle(s: State) {
    !s.isPlacementEnabled && s.selectedModel.None?
  }

  /** Placement mode is on exactly when a model is selected. */
  predicate Consistent(s: State) {
    s.isPlacementEnabled <==> s.selectedModel.Some?
  }

  // ---------------------------------------------------------------------
  // The four transitions
  // ---------------------------------------------------------------------

  /** Tapping model `m` selects it and turns placement mode on, so the
      placement buttons replace the picker; the confirmed slot and the
      queue are untouched. */
  lemma TapSelects(s: State, m: string)
    ensures Step(s, TapModel(m)).selectedModel == Some(m)
    ensures Step(s, TapModel(m)).isPlacementEnabled
    ensures ShownOverlay(Step(s, TapModel(m))) == PlacementButtons
    ensures Step(s, TapModel(m)).modelConfirmForPlacement == s.modelConfirmForPlacement
    ensures Step(s, TapModel(m)).pendingClears == s.pendingClears
  {
  }

  /** Cancel drops the selection and brings the picker back, leaves the
      confirmed slot alone, and a second cancel changes nothing. */
  lemma CancelResets(s: State)
    ensures Idle(Step(s, Cancel))
    ensures ShownOverlay(Step(s, Cancel)) == ModelPicker
    ensures Step(s, Cancel).modelConfirmForPlacement == s.modelConfirmForPlacement
    ensures Step(s, Cancel).pendingClears == s.pendingClears
    ensures Step(Step(s, Cancel), Cancel) == Step(s, Cancel)
  {
  }

  /** From an idle screen, tapping a model and cancelling returns to the very
      same state. */
  lemma TapThenCancelRestores(s: State, m: string)
    requires Idle(s)
    ensures Run(s, [TapModel(m), Cancel]) == s
  {
    assert [TapModel(m), Cancel][1..] == [Cancel];
    assert [Cancel][1..] == [];
  }

  /** Confirm moves the selection, as it was before the tap, into the
      confirmed slot, then drops the selection and brings the picker back. */
  lemma ConfirmPromotes(s: State)
    ensures Step(s, Confirm).modelConfirmForPlacement == s.selectedModel
    ensures Idle(Step(s, Confirm))
    ensures Step(s, Confirm).pendingClears == s.pendingClears
  {
  }

  /** Tapping `m` and confirming leaves `m` confirmed, nothing selected and
      placement mode off, whatever the state before. */
  lemma TapThenConfirm(s: State, m: string)
    ensures Run(s, [TapModel(m), Confirm])
         == State(false, None, Some(m), s.pendingClears)
  {
    assert [TapModel(m), Confirm][1..] == [Confirm];
    assert [Confirm][1..] == [];
  }

  /** A scene update with nothing confirmed changes nothing. With a model
      confirmed it queues one clear, and once that has run the slot is nil.
      Neither step touches the selection or placement mode. */
  lemma UpdateThenClear(s: State)
    ensures s.modelConfirmForPlacement.None? ==> Step(s, UpdateView) == s
    ensures s.modelConfirmForPlacement.Some? ==>
              Step(s, UpdateView).pendingClears == s.pendingClears + 1 &&
              Run(s, [UpdateView, RunDeferredClear]).modelConfirmForPlacement.None?
    ensures Run(s, [UpdateView, RunDeferredClear]).selectedModel == s.selectedModel
    ensures Run(s, [UpdateView, RunDeferredClear]).isPlacementEnabled == s.isPlacementEnabled
  {
    assert [UpdateView, RunDeferredClear][1..] == [RunDeferredClear];
    assert [RunDeferredClear][1..] == [];
  }

  /** A queued clear sets the slot to nil whatever it holds when it runs:
      a model confirmed after the update that queued the clear, and before
      the clear runs, is dropped as well. */
  lemma DeferredClearDropsLaterConfirmation(s: State, m: string)
    requires Idle(s) && s.modelConfirmForPlacement.Some?
    ensures Run(s, [UpdateView, TapModel(m), Confirm]).modelConfirmForPlacement == Some(m)
    ensures Run(s, [UpdateView, TapModel(m), Confirm, RunDeferredClear]).modelConfirmForPlacement.None?
  {
    var t1 := Step(s, UpdateView);
    var t2 := Step(t1, TapModel(m));
    var t3 := Step(t2, Confirm);
    assert t3.pendingClears > 0;
    var es := [UpdateView, TapModel(m), Confirm];
    assert es[1..][1..][1..] == [];
    assert Run(s, es) == Run(t1, es[1..]) == Run(t2, es[1..][1..]) == t3;
    RunAppend(s, es, [RunDeferredClear]);
    assert es + [RunDeferredClear] == [UpdateView, TapModel(m), Confirm, RunDeferredClear];
    assert [RunDeferredClear][1..] == [];
  }

  // ---------------------------------------------------------------------
  // Invariants of every run
  // ---------------------------------------------------------------------

  /** Every step keeps placement mode on exactly when a model is selected. */
  lemma StepConsistent(s: State, e: Event)
    requires Consistent(s)
    ensures Consistent(Step(s, e))
  {
  }

  /** Every run from a consistent state, such as the initial one, keeps
      placement mode on exactly when a model is selected. */
  lemma {:induction false} RunConsistent(s: State, events: seq<Event>)
    requires Consistent(s)
    ensures Consistent(Run(s, events))
    decreases |events|
  {
    if |events| > 0 {
      StepConsistent(s, events[0]);
      RunConsistent(Step(s, events[0]), events[1..]);
    }
  }

  /** The confirm button, shown only in placement mode, never writes nil into
      the confirmed slot in a consistent state. */
  lemma ConfirmFromButtonsConfirmsModel(s: State)
    requires Consistent(s) && ShownOverlay(s) == PlacementButtons
    ensures Step(s, Confirm).modelConfirmForPlacement.Some?
    ensures Step(s, Confirm).modelConfirmForPlacement == s.selectedModel
  {
  }

  /** Every tap in the sequence names one of `models`. */
  predicate TapsFrom(events: seq<Event>, models: seq<string>) {
    forall k :: 0 <= k < |events| && events[k].TapModel? ==> events[k].model in models
  }

  /** Both slots hold nil or one of `models`. */
  predicate SlotsFrom(s: State, models: seq<string>) {
    (s.selectedModel.Some? ==> s.selectedModel.value in models) &&
    (s.modelConfirmForPlacement.Some? ==> s.modelConfirmForPlacement.value in models)
  }

  /** When every tap is on a thumbnail of the catalog, the selected and the
      confirmed model are always catalog entries: the scene is only ever
      asked to place a model the scanner found. */
  lemma {:induction false} RunSlotsFromCatalog(s: State, events: seq<Event>, models: seq<string>)
    requires SlotsFrom(s, models) && TapsFrom(events, models)
    ensures SlotsFrom(Run(s, events), models)
    decreases |events|
  {
    if |events| > 0 {
      assert events[0].TapModel? ==> events[0].model in models;
      assert TapsFrom(events[1..], models) by {
        forall k | 0 <= k < |events[1..]| && events[1..][k].TapModel?
          ensures events[1..][k].model in models
        {
          assert events[1..][k] == events[k + 1];
        }
      }
      RunSlotsFromCatalog(Step(s, events[0]), events[1..], models);
    }
  }

  /** Runs compose: running `a` and then `b` is running `a + b`. */
  lemma {:induction false} RunAppend(s: State, a: seq<Event>, b: seq<Event>)
    ensures Run(s, a + b) == Run(Run(s, a), b)
    decreases |a|
  {
    if |a| > 0 {
      assert (a + b)[0] == a[0];
      assert (a + b)[1..] == a[1..] + b;
      RunAppend(Step(s, a[0]), a[1..], b);
    } else {
      assert a + b == b;
    }
  }
}
