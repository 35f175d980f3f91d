/** The screen itself: `ContentView` with its three state variables, the
    catalog it scans when it is created, and the actions of its sub-views
    (the picker's thumbnails, the placement buttons, the AR view container's
    update) as methods that assign to those variables. Each method is tied to
    the step of module Placement that it performs. */
module Views {
  import opened Wrappers
  import Catalog
  import Placement

  class ContentView {
    var isPlacementEnabled: bool
    var selectedModel: Option<string>
    var modelConfirmForPlacement: Option<string>
    /** Clears of `modelConfirmForPlacement` queued on the main queue by
        `UpdateUIView` and not run yet. */
    var pendingClears: nat
    /** The display names found in the bundle, in listing order. */
    const models: seq<string>

    /** The state variables as one value. */
    function CurrentState(): Placement.State
      reads this
    {
      Placement.State(isPlacementEnabled, selectedModel, modelConfirmForPlacement, pendingClears)
    }

    /** A new screen: the catalog is scanned from the bundle's listing (None
        when the bundle has no resource path or it cannot be listed), placement
        is off and both slots are nil. */
    constructor (listing: Option<seq<string>>)
      ensures models == Catalog.Scanned(listing)
      ensures !isPlacementEnabled && selectedModel.None? && modelConfirmForPlacement.None?
      ensures pendingClears == 0
      ensures CurrentState() == Placement.Initial
    {
      var scanned := Catalog.ScanModels(listing);
      models := scanned;
      isPlacementEnabled := false;
      selectedModel := None;
      modelConfirmForPlacement := None;
      pendingClears := 0;
    }

    /** The sub-view `body` shows under the AR view. */
    function Shown(): (o: Placement.Overlay)
      reads this
      ensures o == Placement.PlacementButtons <==> isPlacementEnabled
      ensures o == Placement.ModelPicker <==> !isPlacementEnabled
    {
      Placement.ShownOverlay(CurrentState())
    }

    /** A tap on the thumbnail at `index` of the picker's strip. */
    method Tap(index: nat)
      requires index < |models|
      modifies this
      ensures selectedModel == Some(models[index]) && isPlacementEnabled
      ensures modelConfirmForPlacement == old(modelConfirmForPlacement)
      ensures pendingClears == old(pendingClears)
      ensures CurrentState() == Placement.Step(old(CurrentState()), Placement.TapModel(models[index]))
    {
      var model := models[index];
      selectedModel := Some(model);
      isPlacementEnabled := true;
    }

    /** Leave placement mode and drop the selection. */
    method ResetPlacementParameters()
      modifies this
      ensures !isPlacementEnabled && selectedModel.None?
      ensures modelConfirmForPlacement == old(modelConfirmForPlacement)
      ensures pendingClears == old(pendingClears)
      ensures CurrentState() == Placement.ResetPlacementParameters(old(CurrentState()))
    {
      isPlacementEnabled := false;
      selectedModel := None;
    }

    /** The cancel button. */
    method Cancel()
      modifies this
      ensures !isPlacementEnabled && selectedModel.None?
      ensures modelConfirmForPlacement == old(modelConfirmForPlacement)
      ensures pendingClears == old(pendingClears)
      ensures CurrentState() == Placement.Step(old(CurrentState()), Placement.Cancel)
    {
      ResetPlacementParameters();
    }

    /** The confirm button: the selection becomes the confirmed model. */
    method Confirm()
      modifies this
      ensures modelConfirmForPlacement == old(selectedModel)
      ensures !isPlacementEnabled && selectedModel.None?
      ensures pendingClears == old(pendingClears)
      ensures CurrentState() == Placement.Step(old(CurrentState()), Placement.Confirm)
    {
      modelConfirmForPlacement := selectedModel;
      ResetPlacementParameters();
    }

    /** `ARViewContainer.updateUIView`: with a model confirmed, queue a clear
        of the confirmed slot on the main queue; with none, do nothing. */
    method UpdateUIView()
      modifies this
      ensures pendingClears == old(pendingClears) + (if old(modelConfirmForPlacement).Some? then 1 else 0)
      ensures modelConfirmForPlacement == old(modelConfirmForPlacement)
      ensures selectedModel == old(selectedModel) && isPlacementEnabled == old(isPlacementEnabled)
      ensures CurrentState() == Placement.Step(old(CurrentState()), Placement.UpdateView)
    {
      if modelConfirmForPlacement.Some? {
        pendingClears := pendingClears + 1;
      }
    }

    /** The main queue runs one queued clear, if there is one. */
    method RunDeferredClear()
      modifies this
      ensures old(pendingClears) > 0 ==>
                modelConfirmForPlacement.None? && pendingClears == old(pendingClears) - 1
      ensures old(pendingClears) == 0 ==>
                modelConfirmForPlacement == old(modelConfirmForPlacement) && pendingClears == 0
      ensures selectedModel == old(selectedModel) && isPlacementEnabled == old(isPlacementEnabled)
      ensures CurrentState() == Placement.Step(old(CurrentState()), Placement.RunDeferredClear)
    {
      if pendingClears > 0 {
        modelConfirmForPlacement := None;
        pendingClears := pendingClears - 1;
      }
    }
  }
}
