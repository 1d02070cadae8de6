# Page-state model of the hackwestern-12 front end

This project models the non-UI logic of three React pages of the front end.
Each state update is written as a pure transition over immutable sequences
and sets, and the project proves index, order and membership facts about
those transitions.

- **Viewer** (`viewer.dfy`) models `ViewerPage`. The gallery shows the
  navigation images followed by the uploaded ones, minus every raw index in
  a set of hidden indices. `removeImage` maps a gallery position back to a
  raw index: the source's loop is `FindActualIndex`, and its functional
  twin is `ActualIndex`. The module also covers the upload callback, the
  reset, and the simulated loading bar that climbs in steps of 10 to 100.
- **Landing** (`landing.dfy`) models `LandingPage`. It covers the submit
  guard (trimmed prompt empty and no files), appending a file batch, and
  `removeImage`. `removeImage` drops the k-th preview and rebuilds the file
  list as the image files with `splice(k, 1)` applied, followed by the
  non-image files. ECMAScript `trim` and `splice` are written out,
  including splice's negative start.
- **Generate** (`generate.dfy`) models `GeneratePage`. It covers the
  WORLD → OBJECT stage machine, the stage-dependent file list, world
  selection and object toggling. It also has an invariant over every run
  of user events from mounting.
- **Common** (`common.dfy`) holds `Option` and two sequence operations:
  removing one position, and removing every occurrence of a value.

React effects are applied explicitly. `Generate.Commit` reloads the file
list when the stage changes. `Viewer.ticking` records whether the loading
interval is still installed. Browser dialogs become inputs (`confirmed`)
or output flags (`alerts`, `navigates`).

The code shows a few behaviours that are easy to miss:
- `handleObjectClick` removes an object that is already selected, and
  appends one that is not. Toggling an object twice therefore restores a
  duplicate-free list only when the object was absent or was the last one
  selected. Otherwise the object moves to the end. `ObjectClickTwice`
  proves exactly this condition, in both directions.
- `!selectedWorld` also treats an empty world name as "no world".
- The landing page's `removeImage` regroups the files, images first, even
  when the index is past the last image.

`ModelPage.tsx` (lines 6-8, 12 and 26) keeps a movement vector, a pose
string and a grab vector, and passes their setters to `PoseDetector`.
`PoseDetector` never calls them, and no front-end component computes
them from a pose. This gesture-to-camera layer is therefore not modelled
(see Left out).

## Model

| member | source | states |
|---|---|---|
| Common.RemoveAt | frontend/src/pages/LandingPage.tsx:74 | filtering on `i !== k` drops exactly position k when it is in range, keeps the others in order, and is the identity otherwise |
| Common.Without | frontend/src/pages/GeneratePage.tsx:63 | the value is gone afterwards, every other element survives with its number of occurrences (the multiset of the list with that value's count set to 0), nothing new appears, and a list without the value is unchanged |
| Common.WithoutAppend | frontend/src/pages/GeneratePage.tsx:63 | filtering distributes over concatenation, so the kept elements stay in their original order |
| Common.WithoutAtIndex | frontend/src/pages/GeneratePage.tsx:63 | on a duplicate-free list, filtering out a present value removes exactly its one position |
| Viewer.Visible | frontend/src/pages/ViewerPage.tsx:24-25 | the gallery has one entry per non-hidden raw index, and each entry is a raw image |
| Viewer.VisibleAt | frontend/src/pages/ViewerPage.tsx:24-25 | a non-hidden raw index a is shown at gallery position CountShown(a), the number of non-hidden indices below it, so relative order is preserved |
| Viewer.VisibleFrom | frontend/src/pages/ViewerPage.tsx:24-25 | gallery position j shows the raw image at ActualIndex(j), a raw index that is not hidden |
| Viewer.ActualIndex | frontend/src/pages/ViewerPage.tsx:67-77 | for 0 ≤ k < gallery length, the result is the non-hidden raw index with exactly k non-hidden indices before it; otherwise it is -1 |
| Viewer.FindActualIndex | frontend/src/pages/ViewerPage.tsx:65-78 | the counting loop with `break` finds that same index, and returns -1 exactly when k is not a gallery position |
| Viewer.HideOne | frontend/src/pages/ViewerPage.tsx:80 | hiding a shown raw index removes exactly its gallery entry |
| Viewer.RemoveImage | frontend/src/pages/ViewerPage.tsx:65-82 | for 0 ≤ k < gallery length, the new gallery is the old one with entry k removed; otherwise the state is unchanged; the hidden set only grows, by at most one index, and no other field changes |
| Viewer.Mount | frontend/src/pages/ViewerPage.tsx:7-12 | the page starts with the navigation images, no uploads, nothing hidden, and loading at 0 with the interval installed; the gallery shows exactly the navigation images |
| Viewer.UploadArrived | frontend/src/pages/ViewerPage.tsx:41-43 | a read image is appended to the uploads and no other field changes; it shows at the end of the gallery unless its raw index is already hidden |
| Viewer.UploadAllSpec | frontend/src/pages/ViewerPage.tsx:38-46 | a series of read callbacks appends their images in order |
| Viewer.ResetAsWritten | frontend/src/pages/ViewerPage.tsx:101-107 | when confirmed, the uploads are emptied and every other field, including the hidden set and the loading fields, stays as it is; when declined, nothing changes |
| Viewer.ResetAsWrittenHidesNextUpload | frontend/src/pages/ViewerPage.tsx:101-107 | upload, delete and reset (Reset is enabled at that point), then upload again: the new image is never shown |
| Viewer.Reset | frontend/src/pages/ViewerPage.tsx:101-107 | corrected reset: the uploads are emptied; an index stays hidden exactly when it was hidden and points into the initial images; the gallery shows the remaining initial images; the loading fields are kept |
| Viewer.ResetThenUploadsShown | frontend/src/pages/ViewerPage.tsx:101-107 | after the corrected reset, every later upload is shown, after the initial images and in arrival order |
| Viewer.ProgressTick | frontend/src/pages/ViewerPage.tsx:111-119 | below 100 the bar adds 10 and the interval stays installed; at 100 or more it stays at 100, ends loading and clears the interval; it keeps values in {0, 10, …, 100} and never touches the images |
| Viewer.ProgressFromMount | frontend/src/pages/ViewerPage.tsx:110-120 | after n firings from mounting, the bar reads min(10n, 100), and loading ends at the eleventh firing |
| Viewer.TicksIdle | frontend/src/pages/ViewerPage.tsx:114 | once the interval is cleared, no later firing changes anything |
| Viewer.ButtonsEnabled | frontend/src/pages/ViewerPage.tsx:644-651 | Render Model and Reset are enabled exactly when the raw image list is longer than the navigation images, that is, when something was uploaded |
| Viewer.SaveAsWritten | frontend/src/pages/ViewerPage.tsx:89-91 | saving sets loading with progress 0 and changes nothing else, so the interval stays as it was |
| Viewer.SaveAfterLoadStalls | frontend/src/pages/ViewerPage.tsx:89-91 | after one upload (so Render Model is enabled) and eleven firings, loading is done at 100; a save then leaves loading at 0 % forever |
| Viewer.Save | frontend/src/pages/ViewerPage.tsx:89-91 | corrected save: loading restarts at 0 with the interval installed, and the images and hidden set are untouched |
| Viewer.ProgressFromRestart | frontend/src/pages/ViewerPage.tsx:112-119 | from a restart at 0, the bar climbs by 10 per firing up to 100, and the uploads are untouched |
| Viewer.SaveCompletes | frontend/src/pages/ViewerPage.tsx:89-91 | after the corrected save, eleven firings finish loading at 100 |
| Landing.TrimStart | frontend/src/pages/LandingPage.tsx:38 | the result is a suffix of the prompt, everything cut off is white space, and it does not start with white space |
| Landing.TrimEnd | frontend/src/pages/LandingPage.tsx:38 | the result is a prefix of the text, everything cut off is white space, and it does not end with white space |
| Landing.Trim | frontend/src/pages/LandingPage.tsx:38 | `trim()` gives a contiguous part of the prompt, only white space is cut off on either side, and no white space is left at either end |
| Landing.TrimEmpty | frontend/src/pages/LandingPage.tsx:49 | `trim()` leaves an empty string exactly when every character is ECMAScript white space or a line terminator |
| Landing.IsButtonDisabled | frontend/src/pages/LandingPage.tsx:49 | the button is disabled exactly when the prompt is all white space and no file is selected |
| Landing.Mount | frontend/src/pages/LandingPage.tsx:7-10 | the page starts with an empty prompt, no files, no previews, not expanding, and so with the button disabled |
| Landing.HandleClick | frontend/src/pages/LandingPage.tsx:36-47 | the click changes nothing and schedules no navigation exactly when the button is disabled; otherwise it sets expanding and navigates; no other field changes |
| Landing.HandleFileChange | frontend/src/pages/LandingPage.tsx:51-54 | the batch goes after the existing files and both orders are kept; no other field changes; with no file list nothing changes |
| Landing.AddPreviews | frontend/src/pages/LandingPage.tsx:64 | a batch's previews go after the existing previews and no other field changes |
| Landing.Images | frontend/src/pages/LandingPage.tsx:76 | the image filter keeps only files whose type starts with `image/` |
| Landing.NonImages | frontend/src/pages/LandingPage.tsx:77 | the other filter keeps only files whose type does not start with `image/` |
| Landing.PartitionCount | frontend/src/pages/LandingPage.tsx:76-77 | every file lands in exactly one of the two filters: the lengths and the multisets add up |
| Landing.SpliceStart | frontend/src/pages/LandingPage.tsx:78 | the position `splice(start, 1)` removes at: start itself when in range, len + start for a negative start down to -len, len (nothing removed) past the end, 0 below -len; so an element is removed exactly when a non-negative start is below the length or a negative start meets a non-empty list |
| Landing.RemoveImage | frontend/src/pages/LandingPage.tsx:73-81 | drops preview `index` (identity out of range); afterwards the non-image files are exactly the old ones in order, the image files are the old ones with the spliced one removed, and images come first |
| Landing.RemoveImageCount | frontend/src/pages/LandingPage.tsx:76-79 | the file count drops by one exactly when index < number of image files; otherwise the same files are only regrouped |
| Landing.PairedAfterUpload | frontend/src/pages/LandingPage.tsx:53-64 | when a batch brings one preview per image file, previews and image files stay equal in number |
| Landing.PairedAfterRemove | frontend/src/pages/LandingPage.tsx:73-81 | deleting a preview at a non-negative position keeps previews and image files equal in number |
| Generate.FilesFor | frontend/src/pages/GeneratePage.tsx:25-31 | WORLD offers `["Myhal.ply"]` and OBJECT offers `["HackWesternHorse.ply","UofTHacksMoose.ply"]` |
| Generate.Commit | frontend/src/pages/GeneratePage.tsx:25-31 | the stage effect keeps the file list equal to the list for the current stage and changes nothing else |
| Generate.Mount | frontend/src/pages/GeneratePage.tsx:5-31 | the page mounts in WORLD with the world list loaded, nothing selected, and the prompt from navigation |
| Generate.HasWorld | frontend/src/pages/GeneratePage.tsx:35 | `!selectedWorld` is false exactly when a world is set and it is not the empty string |
| Generate.HandleSave | frontend/src/pages/GeneratePage.tsx:33-48 | in WORLD with no world: alert only; in WORLD with a world: move to OBJECT and keep both selections and the prompt; in OBJECT: navigate and change nothing |
| Generate.HandleReset | frontend/src/pages/GeneratePage.tsx:50-55 | from any state: WORLD, no world, no objects, empty prompt; from a consistent state this is exactly the mounted page with an empty prompt |
| Generate.ResetIdempotent | frontend/src/pages/GeneratePage.tsx:50-55 | resetting twice equals resetting once |
| Generate.HandleWorldClick | frontend/src/pages/GeneratePage.tsx:59 | the clicked file becomes the selected world and nothing else changes |
| Generate.WorldClickIdempotent | frontend/src/pages/GeneratePage.tsx:59 | clicking the same world twice equals clicking it once |
| Generate.ToggleObject | frontend/src/pages/GeneratePage.tsx:61-65 | the updater selects the file exactly when it was not selected, leaves every other entry in order, appends an absent file at the end, and introduces no duplicate |
| Generate.HandleObjectClick | frontend/src/pages/GeneratePage.tsx:60-66 | the file is selected afterwards exactly when it was not before; other entries keep their order; an absent file is appended at the end; no duplicates are introduced |
| Generate.ObjectClickTwice | frontend/src/pages/GeneratePage.tsx:60-66 | toggling twice keeps the same multiset of objects, and restores the list exactly when the object was absent or last |
| Generate.ClickFile | frontend/src/pages/GeneratePage.tsx:108-109 | a file click selects a world in WORLD and toggles an object in OBJECT; the stage, file list and prompt are unchanged |
| Generate.StepInv | frontend/src/pages/GeneratePage.tsx:33-66 | every user event keeps the page invariant |
| Generate.ReachableInv | frontend/src/pages/GeneratePage.tsx:5-66 | in every state reachable from mounting, the list matches the stage, the world is the offered one, the objects are distinct offered objects, and OBJECT implies a world is chosen |

## Findings

| source | as written | input that shows it | evidently intended | confidence | as-written member | corrected member |
|---|---|---|---|---|---|---|
| frontend/src/pages/ViewerPage.tsx:101-107 | reset empties `uploadedImages` but keeps hidden indices that pointed into them | no initial images; upload "a", delete it (index 0 hidden), reset, upload "b": "b" sits at raw index 0 and is never shown | a reset makes later uploads visible again | medium, not executed | Viewer.ResetAsWrittenHidesNextUpload | Viewer.ResetThenUploadsShown |
| frontend/src/pages/ViewerPage.tsx:89-91 | save sets loading with progress 0, but the interval was cleared when the bar reached 100 and is never reinstalled | mount, one image uploaded (Render Model enabled), 11 firings (loading done), save: the bar stays at 0 % and loading never ends | saving replays the simulated progress to 100 | medium, not executed | Viewer.SaveAfterLoadStalls | Viewer.SaveCompletes |

`Viewer.ResetAsWritten` and `Viewer.SaveAsWritten` are the updates as
written. `Viewer.Reset` and `Viewer.Save` are the corrected ones.

## Left out

- The gesture-to-camera layer: pose symbol classification, the movement
  vector, the interaction-mode latch and nearest-object grab resolution.
  None of these has an implementation in the source files, and modelling
  them would mean inventing behaviour.
- Pose detection and camera I/O (`PoseDetector.tsx`, `usePoseTracking.ts`,
  `MediaPipe.ts`, `VideoFeed.tsx`): they are external capture and drawing
  code.
- 3D rendering (`ModelRender.tsx`, `PoseOverlay.tsx`): these are wrappers
  over three.js and the MediaPipe drawing utilities.
- Routing and prop wiring (`App.tsx`, `ModelPage.tsx`, `MotionPage.tsx`):
  there is no logic in them to model.
- FileReader callbacks: when they fire and in what order previews arrive
  are asynchronous. `Viewer.UploadArrived` and `Landing.AddPreviews` model
  only the state updaters.
- The image-type filter in the viewer's `processFiles`: it only decides
  which files get read, and that step is part of the asynchronous reading.
- Timers: the 300 ms interval and the 800 ms navigation delay are not
  modelled. The interval becomes one `ProgressTick` per firing, and the
  delay becomes the `navigates` flag.
- Randomness: the landing page's random word and colour, and its star
  field.
- Browser side effects and presentation: the result of `confirm` is an
  input. The generate page's `alert` is the `alerts` output flag and its
  navigation is the `navigates` flag. The viewer's save alerts
  (`ViewerPage.tsx:94-98`) are dropped, since they change no state.
  `console.log`, alert text, fullscreen and drag flags, the info popup,
  prompt editing in the viewer, CSS and JSX markup are not modelled.
- Disabled buttons in the viewer: Render Model and Reset are disabled
  while there are no uploads (`ViewerPage.tsx:644`, `ViewerPage.tsx:651`).
  `Viewer.SaveAsWritten`, `Viewer.ResetAsWritten` and their corrected
  versions model the handlers without this guard. `Viewer.ButtonsEnabled`
  states the guard, and both findings' lemmas prove that their runs press
  the buttons while it holds.
- Landing.PairedAfterRemove: only non-negative indices are covered. For a
  negative index, `splice` removes an image file while the preview filter
  removes nothing. The page only passes indices from `map`, which are
  never negative.
- Integers are unbounded. The loading counter only takes the values 0 to
  100, so JavaScript number precision does not matter.
