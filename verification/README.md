# Cozy room: theme, record player and post-processing managers in Dafny

The browser scene of a "cozy room" has three managers with logic of their own:

- **`DarkModeManager`** holds the day/night theme. One flag, `isDarkMode`, is the
  source of truth. It is mirrored three ways: into the baked material's
  `uNightMix` uniform (0 is night, 1 is day), into the body class `dark`, and into
  the theme button's `aria-pressed` attribute. Four things change it: a click on
  the button, `setDarkMode`, a change of the system's `prefers-color-scheme`, and
  the debug panel's "Night Mix" slider. The slider writes the uniform directly
  and derives the flag back from it.
- **`VinylPlayerManager`** holds the record player's playing/stopped flag. Each
  click flips it. Starting spins the disc, swings the arm onto the record and
  plays the background music. Stopping kills the stored animations, eases the
  parts back to rest and pauses the music. `isVinylObject` decides what the
  pointer can click.
- **`PostProcessingManager`** owns the effect composer's ordered pass list. Beside
  it, the manager keeps a name-to-pass map. The initial pipeline is render,
  bloom, gamma correction (disabled) and, at pixel ratio 1 on WebGL 2,
  antialiasing (SMAA). `addPass` and `removePass` update the list and the map
  together. A master switch picks composer or direct rendering.

Each manager is modelled as an immutable record plus pure functions, one per
method of the source:

- `dark_mode.dfy` (module `DarkMode`): the `Theme` record and the four events.
- `vinyl_player.dfy` (module `VinylPlayer`): the `Player` record. Every operation
  returns an `Outcome`: the player afterwards plus the list of effects it issued.
  Effects are tween starts and kills, play and pause of the music, the console
  warning and the cursor flash.
- `post_processing.dfy` (module `PostProcessing`): the `Manager` record with an
  optional composer, the pass list, the name map and the switch.
- `text.dfy` (module `Text`): substring search, as `String.prototype.includes`.
- `wrappers.dfy` (module `Wrappers`): `Option`, standing for a nullable reference.

Object identity, which `indexOf` and `Array.prototype.includes` compare, is
modelled as equality of the whole record. The `id` field keeps two distinct
nodes or passes apart even when their other fields agree. A pass's `enabled`
flag is part of that record, which is harmless here because the model never
changes it after construction. Tweens are numbered by a
counter in the player, so "kill the stored disc animation" names a specific tween.

Main results:

- Every theme reachable from construction is coherent. The page always shows the
  flag, and the flag is set exactly when the uniform is 0. Toggling twice gives
  back the prior theme exactly when the uniform was not parked mid-range by the
  slider.
- Clicking the record player alternates the flag strictly. With disc and arm
  present, the music is audible exactly when `getState` reports playing. Two cases
  break this, and each is proved: a click with a part missing, and `dispose`
  while playing.
- The pass list and the name map stay in agreement under every sequence of calls:
  no pass is bound to more names than it has places in the list. So on a manager
  reached from construction, `removePass` never throws and succeeds exactly for
  the bound names.

Three behaviours of the code are easy to miss, and the model keeps them:

- `initialize` appends to the interactive list. A second call adds the parts
  again as duplicates, and `dispose` empties the list (`InitializeTwiceDuplicates`,
  `Dispose`).
- `removePass` only splices the pass out of the list and unbinds its name
  (`RemovePass`).
- `handleClick` flips the flag even when `start` returns early for a missing
  part, so the flag then says "playing" with no music (`ClickWithoutPartsDesyncs`).

## Model

| member | source | states |
|---|---|---|
| DarkMode.UpdateDom | src/managers/DarkModeManager.js:91-99 | afterwards the body has class "dark" and `aria-pressed` is "true" exactly when the flag is set, else "dark" is absent and `aria-pressed` is "false"; no other body class changes |
| DarkMode.UpdateTheme | src/managers/DarkModeManager.js:80-89 | the uniform becomes 0 exactly when the flag is set and 1 otherwise, so it only takes the values 0 and 1; the page mirrors the flag too |
| DarkMode.Create | src/managers/DarkModeManager.js:4-53 | a new manager is synced and coherent; it is dark exactly when `matchMedia` exists and reports a dark preference; other body classes are kept |
| DarkMode.Toggle | src/managers/DarkModeManager.js:75-78 | negates the flag and leaves uniform, class and attribute derived from the new flag |
| DarkMode.SetDarkMode | src/managers/DarkModeManager.js:107-110 | the flag becomes the argument, with every mirror re-derived |
| DarkMode.OnSlider | src/managers/DarkModeManager.js:27-36 | a slider value v in [0,1] stays in the uniform; the flag becomes "v is 0"; the page follows the flag; the theme is synced exactly when v is 0 or 1 |
| DarkMode.Step | src/managers/DarkModeManager.js:39-48 | each of the four events leaves a coherent theme; a click negates the flag, `setDarkMode` sets it, a change of the system preference sets it to `matches`, and the slider makes it "value is 0" |
| DarkMode.RunKeepsCoherent | src/managers/DarkModeManager.js:32-48 | any sequence of events keeps the page mirroring the flag, the uniform in [0,1], and the flag set exactly when the uniform is 0 |
| DarkMode.GetterAgreesWithMirrors | src/managers/DarkModeManager.js:102-104 | after construction and any events, `getIsDarkMode` agrees with the body class, with `aria-pressed` and with the uniform being 0 |
| DarkMode.ToggleTwiceRederives | src/managers/DarkModeManager.js:75-89 | two toggles restore the flag and re-derive the uniform and page from it |
| DarkMode.ToggleTwiceRestores | src/managers/DarkModeManager.js:75-99 | two toggles give back exactly the prior flag, uniform, body classes and `aria-pressed` if and only if the prior theme was synced |
| DarkMode.ParkedSliderNotRestored | src/managers/DarkModeManager.js:32-35 | a uniform parked at 0.5 by the slider comes back as 1 after two toggles |
| DarkMode.SetDarkModeIdempotent | src/managers/DarkModeManager.js:107-110 | calling `setDarkMode(b)` twice equals calling it once |
| DarkMode.SetOppositeIsToggle | src/managers/DarkModeManager.js:107-110 | setting the negation of the current flag is the same as a toggle |
| VinylPlayer.New | src/managers/VinylPlayerManager.js:13-24 | a new player is stopped, has no parts, no interactive objects and no stored animations |
| VinylPlayer.Initialize | src/managers/VinylPlayerManager.js:27-47 | the parts are replaced; the interactive list becomes the old list followed by the present parts in the order disc, arm, player, each flagged interactive; the flag, the stored tweens and the tween counter are kept |
| VinylPlayer.InitializeTwiceDuplicates | src/managers/VinylPlayerManager.js:27-47 | a second `initialize` with the same parts appends them all again |
| VinylPlayer.Start | src/managers/VinylPlayerManager.js:62-92 | with disc or arm missing: only a warning, nothing else changes; otherwise a disc spin and an arm swing get the next two tween numbers, are stored and issued, followed by exactly one play and no pause, and no other field changes |
| VinylPlayer.StartMusic | src/managers/VinylPlayerManager.js:62-91 | `start` turns the music on exactly when both parts are present and otherwise leaves it as it was |
| VinylPlayer.StopDisc | src/managers/VinylPlayerManager.js:97-108 | the disc half of `stop` kills the stored disc tween if there is one, and no other tween |
| VinylPlayer.StopArm | src/managers/VinylPlayerManager.js:110-128 | the arm half of `stop` kills the stored arm tween if there is one, and no other tween |
| VinylPlayer.Stop | src/managers/VinylPlayerManager.js:95-132 | `stop` changes nothing in the player, never plays, and ends with a pause |
| VinylPlayer.StopPausesOnce | src/managers/VinylPlayerManager.js:95-132 | `stop` pauses the music exactly once |
| VinylPlayer.StopKillsStored | src/managers/VinylPlayerManager.js:95-113 | `stop` kills a disc or arm tween exactly when it is the stored one |
| VinylPlayer.StopMusic | src/managers/VinylPlayerManager.js:95-132 | after `stop` the music is paused |
| VinylPlayer.HandleClick | src/managers/VinylPlayerManager.js:50-59 | a playing player is stopped (`stop`'s effects, no field but the flag changes); a stopped one is started (`start`'s effects and stored tweens); either way the flag is negated and the cursor flash comes last |
| VinylPlayer.ClickMusic | src/managers/VinylPlayerManager.js:50-59 | after a click the music is paused if the player was playing, on if it was stopped with both parts, and unchanged otherwise |
| VinylPlayer.ClickPlaysOrPauses | src/managers/VinylPlayerManager.js:50-59 | a click plays exactly when it starts a complete player, and pauses exactly when the player was playing |
| VinylPlayer.SecondClickKillsWhatFirstStarted | src/managers/VinylPlayerManager.js:95-113 | after a click starts a complete player, the next click kills exactly the disc and arm tweens that the first one started |
| VinylPlayer.ClickWithoutPartsDesyncs | src/managers/VinylPlayerManager.js:62-66 | with a part missing, a click marks a stopped player playing although no music starts |
| VinylPlayer.IsVinylObject | src/managers/VinylPlayerManager.js:135-144 | false for a missing object; otherwise true exactly when the name contains "vinyl", "disc" or "arm", or the object is in the interactive list |
| VinylPlayer.InitializedPartsAreVinyl | src/managers/VinylPlayerManager.js:135-144 | every part given to `initialize` is a vinyl object, whatever its name |
| VinylPlayer.Dispose | src/managers/VinylPlayerManager.js:173-176 | `dispose` issues exactly `stop`'s effects and changes nothing but emptying the interactive list, so the flag, parts, stored tweens and interactive flags stay; afterwards only names make vinyl objects |
| VinylPlayer.DisposeWhilePlayingDesyncs | src/managers/VinylPlayerManager.js:173-176 | `dispose` while playing pauses the music but `getState` still reports playing |
| VinylPlayer.ClicksAlternate | src/managers/VinylPlayerManager.js:50-59 | after n clicks the flag is flipped exactly when n is odd, and the parts are unchanged |
| VinylPlayer.GetStateAfterClicks | src/managers/VinylPlayerManager.js:163-165 | a fresh player's `getState` after n clicks is true exactly when n is odd |
| VinylPlayer.ClicksKeepMusicInStep | src/managers/VinylPlayerManager.js:50-91 | with both parts present, if the music was audible exactly when playing, it stays so through any number of clicks |
| VinylPlayer.InitializedPlayerStaysInStep | src/managers/VinylPlayerManager.js:27-59 | a fresh player initialized with disc and arm, then clicked n times, has its music audible exactly when `getState` is true |
| PostProcessing.CappedPixelRatio | src/managers/PostProcessingManager.js:35 | the composer's pixel ratio is the device's, capped at 2 |
| PostProcessing.Create | src/managers/PostProcessingManager.js:29-63 | the pipeline starts as render, bloom, gamma correction (disabled), plus SMAA as a 4th pass exactly at renderer pixel ratio 1 on WebGL 2; the count is 3 or 4; the bound names are exactly renderPass, bloomPass, gammaPass (and smaaPass with SMAA), each bound to its own pass; the composer has the given size and the device pixel ratio capped at 2; the switch is on; the list and map agree |
| PostProcessing.AddPass | src/managers/PostProcessingManager.js:123-130 | with no composer or no pass it returns false and changes nothing; otherwise it appends the pass last, keeping the composer's size and ratio, binds the name (replacing any binding), returns true and the count grows by one |
| PostProcessing.AddPassRebindKeepsOldPass | src/managers/PostProcessingManager.js:125-126 | rebinding a bound name leaves the previously bound pass in the list |
| PostProcessing.IndexOf | src/managers/PostProcessingManager.js:135 | the result is -1 exactly when the pass is absent, else the position of its first occurrence |
| PostProcessing.RemovePass | src/managers/PostProcessingManager.js:133-143 | true exactly when the name is bound and its pass is in the list; it then deletes that position, unbinds the name and the count drops by one; otherwise false with nothing changed (the name stays bound); a bound name without a composer throws |
| PostProcessing.RemovePassDeletesFirstOccurrence | src/managers/PostProcessingManager.js:135-137 | a successful removal deletes the first occurrence only and keeps the other passes in their order; the multiset of passes loses exactly one copy |
| PostProcessing.RemoveBloomFromNew | src/managers/PostProcessingManager.js:39-63 | on a new manager, removing "bloomPass" succeeds, unbinds the name and leaves render, gamma correction and any SMAA pass in order |
| PostProcessing.AddPassKeepsRegistered | src/managers/PostProcessingManager.js:123-130 | `addPass` keeps every pass bound to no more names than its places in the list |
| PostProcessing.RemovePassKeepsRegistered | src/managers/PostProcessingManager.js:133-143 | `removePass` keeps that agreement and does not throw on an agreeing manager |
| PostProcessing.RemoveSucceedsIffBound | src/managers/PostProcessingManager.js:133-143 | on an agreeing manager `removePass` succeeds exactly for bound names |
| PostProcessing.RunKeepsRegistered | src/managers/PostProcessingManager.js:88-143 | any sequence of add, remove, enable and resize calls keeps the list and the map in agreement |
| PostProcessing.ReachableRemoveSucceedsIffBound | src/managers/PostProcessingManager.js:39-63 | on every manager reachable from construction, `removePass` never throws and succeeds exactly for bound names |
| PostProcessing.SetEnabled | src/managers/PostProcessingManager.js:88-91 | only the switch changes |
| PostProcessing.Resize | src/managers/PostProcessingManager.js:93-98 | with a composer its size becomes the arguments and its ratio the device's capped at 2, the passes untouched; without one nothing changes |
| PostProcessing.RenderFollowsSwitch | src/managers/PostProcessingManager.js:100-106 | a frame goes through the composer exactly when the switch is on and a composer exists, else directly; switching keeps the pass count |

`GetIsDarkMode`, `GetState`, `GetPassCount` and `Render` are plain getters. What
they return is stated by the lemmas above that use them.

## Left out

- Hover animations on the theme button, the debug-panel folders, and the GSAP and Howler calls themselves are left out. Tween parameters (durations, easings, angles) become the opaque effects `SpinDisc`, `LowerArm`, `ResetDisc`, `ResetArm`, `KillDisc`, `KillArm`, `Play` and `Pause`.
- DarkMode.UpdateTheme: the line that sets a `needsUpdate` flag on the uniform object is not modelled. Nothing in the modelled managers reads that flag.
- DarkMode.OnSlider: the slider's own clamping to [0, 1] is taken as a precondition. The value is modelled as a real number, not a double.
- VinylPlayer.HandleClick: `flashCursor` is modelled only as the `FlashCursor` effect. The 300 ms timer that resets the cursor is left out because it is browser timing.
- VinylPlayer.Initialize: the method's return value is the manager's own array, shared with the caller. The model has no heap, so the caller's alias (which keeps its contents after `dispose` replaces the array) is not modelled.
- `update` (both managers) is left out: it does nothing.
- `getComposer` and `getInteractiveObjects` are left out. Both hand the caller the live composer or array. Mutation through those aliases (pushing or splicing `composer.passes`, pushing onto the interactive list) is not modelled. So `RunKeepsRegistered`, `ReachableRemoveSucceedsIffBound` and the `isVinylObject` results hold only for callers that change state through the managers' own methods.
- DarkMode.Create: the model assumes the page has the `.toggle-theme` button. Without it the source constructor throws when attaching the click listener, and `updateDOM` would throw too. That error path is not modelled.
- The post-processing panel's bloom "Enabled" and gamma-correction checkboxes are left out. Each flips `enabled` on the live pass object, and in this model that would change the pass's identity, since identity is the whole record.
- `PostProcessingManager.dispose` is left out: it only calls foreign `dispose` methods on the passes and the composer.
- PostProcessing.AddPass: the composer's `setSize` call on a newly added pass is not modelled, since it only sizes GPU buffers. The render-target sample count chosen at construction is left out for the same reason.
- PostProcessing.RemovePass: names that collide with `Object.prototype` members (`toString`, `__proto__`) are not modelled. The name map is an exact `map<string, Pass>`.
- Pixel ratios, sizes and the uniform are real numbers. Floating-point rounding is not modelled.
