# ModelPickerApp placement screen, in Dafny

This project models the logic of `ContentView.swift` in ModelPickerApp, a
small AR application. The app shows a strip of 3D model thumbnails. A tap on
one enters placement mode, and the cancel and confirm buttons leave it. A
confirmed model is handed to the AR view container, which clears it again.

It has two parts.

* **The catalog scanner** (module `Catalog`). `ContentView.models` is built
  from the bundle's resource directory. The scanner keeps the file names
  ending in `"usdz"` and deletes every `".usdz"` from each kept name. The
  directory listing is an input: `Some(names)`, or `None` when the bundle
  has no resource path or the directory cannot be listed. `ScanModels` is
  the loop of the source, and it is proved equal to the recursive function
  `CatalogOf`. The lemmas prove these facts about `CatalogOf`:
  * It yields exactly one entry per model file, in listing order, and no
    entry for any other file (`KeptPositions`).
  * Every entry is its file's display name.
  * A name `base + ".usdz"` gives back `base` when `base` holds no `".usdz"`.
  * The source's two quirks are kept: the suffix test has no dot, so
    `"foousdz"` is kept unchanged, and `"a.usdz.usdz"` becomes `"a"`.
* **The placement state machine** (modules `Placement` and `Views`).
  * `Placement.State` holds the three state variables of `ContentView`. It
    also holds `pendingClears`, explained below.
  * `Placement.Step` is one transition: tap, cancel, confirm, view update,
    or the run of a queued clear.
  * `Views.ContentView` is a class with the same fields. Its methods assign
    to those fields as the source does, and each method is proved to
    perform the matching `Step`.
  * The lemmas on `Step` and `Run` state the behaviour of each transition
    and the invariants of every run.

`updateUIView` does not clear the confirmed slot at once: it queues
`modelConfirmForPlacement = nil` with `DispatchQueue.main.async`. The model
keeps this as two steps. `UpdateUIView` adds one queued clear to
`pendingClears`, and `RunDeferredClear` runs one. So the model can express
that a queued clear empties the slot whatever it holds when it runs
(`DeferredClearDropsLaterConfirmation`).

Notes on what the code does:

* The scanner does not strip a file extension. It tests the suffix `"usdz"`
  (no dot) and deletes every `".usdz"` anywhere in the name, in one pass
  from left to right: `"..usdzusdz"` becomes `".usdz"`.
* `updateUIView` in this file only logs the confirmed name and queues the
  clear. No anchor is created and no entity is cloned, so the model
  inserts nothing into any scene.
* The selection and the confirmed slot are not mutually exclusive. After a
  confirm, a new tap can select a model while the previous one is still
  confirmed. What the code does keep is `Placement.Consistent`: placement
  mode is on exactly when a model is selected.

## Model

| member | source | states |
|---|---|---|
| Catalog.HasSuffixIff | ModelPickerApp/ContentView.swift:25 | `HasSuffix` (the model of `hasSuffix`) holds exactly when the name is some text followed by the suffix |
| Catalog.IsModelFileIff | ModelPickerApp/ContentView.swift:25 | `IsModelFile` holds exactly when the name is some text followed by "usdz", dot or no dot |
| Catalog.DisplayName | ModelPickerApp/ContentView.swift:26 | the display name, `replacingOccurrences(of: ".usdz", with: "")`, is never longer than the file name |
| Catalog.DisplayNameUnchangedIff | ModelPickerApp/ContentView.swift:26 | the display name equals the file name exactly when the file name holds no ".usdz" |
| Catalog.CatalogOf | ModelPickerApp/ContentView.swift:24-28 | the loop's result, file by file in listing order; never more names than files |
| Catalog.Scanned | ModelPickerApp/ContentView.swift:20-22 | a missing resource path or an unreadable directory yields `[]`; a listing yields no more names than it has files |
| Catalog.ScanModels | ModelPickerApp/ContentView.swift:16-31 | an unreadable directory yields `[]`; otherwise the loop's result equals `CatalogOf` of the listing |
| Catalog.RemoveAll | ModelPickerApp/ContentView.swift:26 | deleting occurrences never makes a name longer |
| Catalog.KeptPositionsExact | ModelPickerApp/ContentView.swift:25 | kept positions are valid and strictly increasing; a position is kept if and only if its file name ends in "usdz" |
| Catalog.CatalogAtKeptPositions | ModelPickerApp/ContentView.swift:24-28 | the scan has one entry per kept position, in the same order; each entry is the display name of the file at that position |
| Catalog.CatalogOfAppend | ModelPickerApp/ContentView.swift:24-28 | scanning `a + b` yields the scan of `a` followed by the scan of `b` |
| Catalog.CatalogOfSingleton | ModelPickerApp/ContentView.swift:25-27 | a single file contributes its display name if it ends in "usdz" and nothing otherwise |
| Catalog.CatalogOfLength | ModelPickerApp/ContentView.swift:24-28 | the scan has as many names as the listing has files when every file is a model file |
| Catalog.RemoveAllUnchangedIff | ModelPickerApp/ContentView.swift:26 | `replacingOccurrences` leaves a name unchanged if and only if the pattern does not occur in it |
| Catalog.RemoveAllNoOccurrence | ModelPickerApp/ContentView.swift:26 | with no occurrence of the pattern, every character is kept |
| Catalog.RemoveAllShrinks | ModelPickerApp/ContentView.swift:26 | any occurrence of the pattern is deleted, so the name gets strictly shorter |
| Catalog.RemoveAllSplit | ModelPickerApp/ContentView.swift:26 | for a pattern whose first character does not repeat in it, such as ".usdz", a copy anywhere in the name is deleted and the text on each side is treated as if on its own |
| Catalog.RemoveAllAppended | ModelPickerApp/ContentView.swift:26 | the trailing case of `RemoveAllSplit`: an appended copy is deleted and the rest is unaffected |
| Catalog.DisplayNameOfModelFile | ModelPickerApp/ContentView.swift:25-26 | `base + ".usdz"` is kept, and its display name is `base` when `base` holds no ".usdz" |
| Catalog.DisplayNameQuirks | ModelPickerApp/ContentView.swift:25-26 | "foousdz" is kept unchanged; "a.usdz.usdz" becomes "a" |
| Catalog.DisplayNameMiddle | ModelPickerApp/ContentView.swift:25-26 | a ".usdz" in the middle is deleted too: for dotless `a` and `b`, "<a>.usdz<b>.usdz" is kept and shown as "<a><b>" |
| Catalog.DisplayNameMiddleExample | ModelPickerApp/ContentView.swift:25-26 | "a.usdzb.usdz" is kept and shown as "ab" |
| Catalog.DisplayNameSinglePass | ModelPickerApp/ContentView.swift:25-26 | deletion is one pass with no rescan: "..usdzusdz" becomes ".usdz" |
| Catalog.ScanTwoModels | ModelPickerApp/ContentView.swift:24-28 | two model files "<base>.usdz" (dotless bases) around a non-model file yield exactly the two bases, in listing order |
| Catalog.ScanExample | ModelPickerApp/ContentView.swift:16-31 | the listing ["chair.usdz", "Info.plist", "robot.usdz"] yields ["chair", "robot"]; an unreadable directory yields [] |
| Placement.ResetPlacementParameters | ModelPickerApp/ContentView.swift:141-144 | the reset leaves the screen idle (placement off, nothing selected) and keeps the confirmed slot and the queued clears |
| Placement.Step | ModelPickerApp/ContentView.swift:57-144 | every transition keeps "placement enabled if and only if a model is selected"; only a tap puts a new model in the selection; the confirmed slot only receives the selection or nil; the update and the queued clear never touch the selection or placement mode |
| Placement.ShownOverlay | ModelPickerApp/ContentView.swift:37-41 | the placement buttons are shown if and only if placement is enabled, and the picker otherwise |
| Placement.TapSelects | ModelPickerApp/ContentView.swift:83-85 | a tap selects the model and enables placement, so the buttons are shown; the confirmed slot and the queued clears are unchanged |
| Placement.CancelResets | ModelPickerApp/ContentView.swift:110-144 | cancel clears the selection, disables placement and keeps the confirmed slot; a second cancel changes nothing |
| Placement.TapThenCancelRestores | ModelPickerApp/ContentView.swift:80-144 | from an idle screen, tap then cancel gives back the same state |
| Placement.ConfirmPromotes | ModelPickerApp/ContentView.swift:127-144 | confirm puts the previous selection in the confirmed slot, clears the selection and disables placement |
| Placement.TapThenConfirm | ModelPickerApp/ContentView.swift:80-144 | tap M then confirm gives confirmed = M, no selection, placement disabled, whatever the state before |
| Placement.UpdateThenClear | ModelPickerApp/ContentView.swift:57-64 | an update with an empty slot changes nothing; with a confirmed model it queues one clear, after which the slot is nil; selection and placement mode are never touched |
| Placement.DeferredClearDropsLaterConfirmation | ModelPickerApp/ContentView.swift:58-63 | a queued clear also empties the slot of a model confirmed after the clear was queued |
| Placement.StepConsistent | ModelPickerApp/ContentView.swift:57-144 | every transition keeps "placement enabled if and only if a model is selected" |
| Placement.RunConsistent | ModelPickerApp/ContentView.swift:57-144 | every sequence of transitions from a consistent state keeps that invariant |
| Placement.ConfirmFromButtonsConfirmsModel | ModelPickerApp/ContentView.swift:127-129 | in a consistent state with the buttons shown, confirm puts a model, never nil, in the confirmed slot |
| Placement.RunSlotsFromCatalog | ModelPickerApp/ContentView.swift:78-85 | when every tap names a catalog model, the selected and confirmed slots only ever hold catalog models |
| Views.ContentView.constructor | ModelPickerApp/ContentView.swift:11-31 | `models` is the scan of the listing; placement is off, both slots are nil and no clear is queued |
| Views.ContentView.Shown | ModelPickerApp/ContentView.swift:37-41 | shows the placement buttons if and only if `isPlacementEnabled` |
| Views.ContentView.Tap | ModelPickerApp/ContentView.swift:78-85 | `selectedModel = models[index]`, `isPlacementEnabled = true`, nothing else changes; this is `Step` for a tap |
| Views.ContentView.ResetPlacementParameters | ModelPickerApp/ContentView.swift:141-144 | placement is disabled and the selection is nil; the confirmed slot is unchanged |
| Views.ContentView.Cancel | ModelPickerApp/ContentView.swift:110-113 | same new state as `ResetPlacementParameters`; this is `Step` for cancel |
| Views.ContentView.Confirm | ModelPickerApp/ContentView.swift:124-129 | confirmed slot = old selection, then reset; this is `Step` for confirm |
| Views.ContentView.UpdateUIView | ModelPickerApp/ContentView.swift:57-64 | queues one clear when a model is confirmed and changes nothing else; this is `Step` for an update |
| Views.ContentView.RunDeferredClear | ModelPickerApp/ContentView.swift:61-63 | running a queued clear sets the slot to nil and nothing else changes; with no clear queued nothing changes |

## Left out

- `Model.swift` is not part of this model. It loads the 3D entity with RealityKit's asynchronous loader and a Combine callback, and looks up the thumbnail with `UIImage(named:)!`. All of it is foreign and asynchronous, and it has no logic of its own.
- `FileManager` and `Bundle.main.resourcePath` are file-system I/O. They become the `Option<seq<string>>` listing. A missing resource path and a failed listing are both `None`, because the source treats them the same way.
- Swift compares strings by grapheme clusters. The model compares them character by character, which agrees for the ASCII names of bundled files.
- `ARView` creation (`makeUIView`) and everything about the scene, anchors and plane detection are left out. `ContentView.swift` implements none of it.
- SwiftUI layout, styling and thumbnails are left out. This includes the `UIImage(named: model)!` in the picker label, which crashes when a thumbnail is missing.
- `print` logging is left out. So is the `#if DEBUG` preview provider.
- Real main-queue and SwiftUI scheduling are not modelled. When SwiftUI calls `updateUIView`, and when the main queue runs a queued closure, is not fixed. Here both are explicit steps that may come in any order.
- Placement.Step and Views.ContentView do not require the picker to be shown for a tap, or the buttons for cancel and confirm. The source's views only offer them then; the lemmas state what holds under that gating (`ConfirmFromButtonsConfirmsModel`).
