# Movement keys, lock gate and hover highlight of a three.js scene demo

This project models the discrete logic of `src/lib/three/main.js`, the single file of a
browser 3D scene demo with a first-person, pointer-locked controller:

- the `keydown`/`keyup` handlers, which keep four movement flags (`moveForward`,
  `moveBackward`, `moveLeft`, `moveRight`) from the arrow keys and their WASD aliases;
- the per-axis direction signs the frame loop derives from the flags
  (`Number(moveForward) - Number(moveBackward)` and `Number(moveRight) - Number(moveLeft)`)
  and the guards of the two acceleration lines;
- the lock gate of `animate`: the motion is integrated only while the controls are
  locked, and `prevTime` is updated on every frame;
- the hover highlight: a single `intersected` slot, and per pickable object an emissive
  colour and a saved `currentHex`, updated once per frame from the nearest raycast hit;
- the loader callback that appends a loaded object to the pickable list.

Files:

- `option.dfy` — `Opt.Option`.
- `keys.dfy` — module `Keys`: the flags as a value (`Held`), the effect of one key
  event (`AfterKeyDown`, `AfterKeyUp`), the meaning of a whole stream of key events
  (`RunMeansLastEvent`), and the direction signs (`Axis`, `DriveOf`).
- `highlight.dfy` — module `Highlight`: one highlight frame (`Step`), its invariant
  (`Shows`) kept over any number of frames, the no-drift and one-red-object
  properties, and the line-220 defect as written (`StepAsWritten`).
- `scene.dfy` — module `Scene`: the class `SceneState` that holds the file's
  module-level `let` state and whose methods are the handlers and one frame of
  `animate`; each method's postcondition ties the new state to the functions above.

Modelling choices:

- Key codes are `KeyboardEvent.code` strings. Objects are identified by a natural
  number, since line 217 compares them by reference.
- Emissive colours are 24-bit integers as `setHex`/`getHex` exchange them.
- The raycast (lines 214-215) is an input to each frame: `None`, or `Some(id)` of an
  object of the pickable list.
- The velocity vector and the camera pose are floating point. They are kept abstract
  as the class's type parameter `M`. The float step of lines 198-210 is the function
  parameter `integrate` of `Animate`. It receives the computed `Keys.Drive`: the two
  signs, the two acceleration guards and the elapsed milliseconds.
- `performance.now()` is a parameter of `Animate` (and of the constructor, for the
  initial `prevTime`), in whole milliseconds.
- Line 220 reads `INTERSECTED`, a name that is never declared. The class follows the
  intended reading, `intersected.material.emissive.getHex()`, which saves the newly hit
  object's own colour. The behaviour as written is modelled beside it and reported
  under "## Findings".
- In the code as written `currentHex` is never assigned. Before an object's colour is
  saved, its `currentHex` is whatever `Hex` the object record holds. JavaScript's
  `undefined` has no counterpart in the model; where the code as written would put
  `undefined` back (`Highlight.AsWrittenLosesColour`), the model uses 0 as a chosen
  stand-in.

## Model

| member | source | states |
|---|---|---|
| `Keys.AfterKeyDown` | src/lib/three/main.js:65-87 | a recognised code sets exactly the flag of its direction and leaves the other three unchanged; an unrecognised code changes nothing |
| `Keys.AfterKeyUp` | src/lib/three/main.js:89-111 | a recognised code clears exactly the flag of its direction and leaves the other three unchanged; an unrecognised code changes nothing |
| `Keys.CodeTable` | src/lib/three/main.js:66-110 | ArrowUp/KeyW act on forward, ArrowLeft/KeyA on left, ArrowDown/KeyS on backward, ArrowRight/KeyD on right, alike on key-down and key-up |
| `Keys.UnknownCodeIgnored` | src/lib/three/main.js:66-110 | a code outside the eight leaves all four flags unchanged on key-down and on key-up (the switch has no default) |
| `Keys.KeyDownIdempotent` | src/lib/three/main.js:69 | a repeated key-down of the same code changes nothing more |
| `Keys.DownThenUpReleases` | src/lib/three/main.js:93 | key-down of either alias followed by key-up of either alias leaves that flag false, whatever it was before, and the other flags as before |
| `Keys.RunMeansLastEvent` | src/lib/three/main.js:65-111 | after any stream of key events, a flag is held exactly when the last event for its direction was a key-down, or there was none and it was held before |
| `Keys.Axis` | src/lib/three/main.js:203-204 | `Number(pos) - Number(neg)` lies in {-1, 0, 1}; it is 0 exactly when both or neither key is held, 1 exactly when only the positive one is, -1 exactly when only the negative one is |
| `Keys.DriveOf` | src/lib/three/main.js:203-207 | `dir.z = [forward] - [backward]` and `dir.x = [right] - [left]` lie in {-1, 0, 1} with zero exactly on both-or-neither; each axis is accelerated exactly when one of its keys is held, and a non-zero sign implies that guard |
| `Highlight.RestoreSlot` | src/lib/three/main.js:218 | the object in the slot gets its saved colour back as emissive; every other object is unchanged |
| `Highlight.Step` | src/lib/three/main.js:216-226 | the slot becomes the hit; same object: nothing changes; new object: the old one is restored to its `currentHex`, the new one saves its prior emissive and is painted 0xff0000, others unchanged; no hit: the old one is restored, others unchanged |
| `Highlight.StepKeepsShows` | src/lib/three/main.js:216-226 | a frame keeps the invariant: the slot's object is red with its true colour saved, every other object shows its true colour |
| `Highlight.Frames` | src/lib/three/main.js:214-226 | any number of frames keep the object set, and the slot ends as the last frame's hit |
| `Highlight.FramesKeepShows` | src/lib/three/main.js:216-226 | the highlight invariant holds after any number of frames |
| `Highlight.ColoursRestoredAfterMiss` | src/lib/three/main.js:223-226 | after any frames ending in a frame with no hit, the slot is empty and every object's emissive equals its true colour exactly (no drift over enter/exit cycles) |
| `Highlight.AtMostOneRed` | src/lib/three/main.js:217-225 | when no object is red by itself, the red objects are exactly the slot's object: one after a hit, none after a miss |
| `Highlight.StepAsWritten` | src/lib/three/main.js:216-226 | as written, a change of the nearest object ends in a ReferenceError after the slot was reassigned and the old object restored, with every other object, the new one included, unchanged (neither saved nor painted); other frames complete |
| `Highlight.AsWrittenAgreesOtherwise` | src/lib/three/main.js:216-226 | with no hit, or the same hit, the code as written completes and agrees with `Step` |
| `Highlight.AsWrittenBreaksShows` | src/lib/three/main.js:219-221 | as written, every change of the nearest object to an object that is not red by itself leaves it in the slot but not red, breaking the invariant |
| `Highlight.AsWrittenLosesColour` | src/lib/three/main.js:218-224 | a green object hovered and then left ends with the unsaved `currentHex` as written and green again under `Step` |
| `Scene.SceneState.constructor` | src/lib/three/main.js:24-29 | at start no flag is held, `prevTime` is the start clock, the slot is empty and no object is loaded |
| `Scene.SceneState.OnKeyDown` | src/lib/three/main.js:65-87 | the flags become `AfterKeyDown` of the old flags; no other field changes |
| `Scene.SceneState.OnKeyUp` | src/lib/three/main.js:89-111 | the flags become `AfterKeyUp` of the old flags; no other field changes |
| `Scene.SceneState.OnMeshLoaded` | src/lib/three/main.js:153-157 | a loaded object is added to the pickable objects; nothing there before changes and the highlight invariant is kept |
| `Scene.SceneState.Animate` | src/lib/three/main.js:196-226 | locked: the motion is integrated from the held keys' drive and the elapsed time; unlocked: the motion is untouched; `prevTime` becomes `time` either way; the highlight state becomes `Step` of the old one and the invariant is kept |
| `Scene.SceneState.UpdateHighlight` | src/lib/three/main.js:216-226 | the in-place updates of the slot and of the objects' colours produce exactly `Step` of the old highlight state |

## Left out

- Scene, camera, renderer, lights, texture and floor construction, and `resize`: library setup with no logic of their own.
- The GUI panel and its `metalic` setter: a UI side channel that writes a property the material does not have.
- Velocity damping, `direction.normalize()`, the division of the elapsed time by 1000 and the `moveRight`/`moveForward` displacement: floating point, including a square root. They are the `integrate` parameter of `Animate`.
- The pointer mapping of `onPointerMove` and the cube rotation: floating point.
- `raycaster.setFromCamera`/`intersectObjects`: a geometry library. The nearest hit is an input of each frame.
- `requestAnimationFrame` scheduling, DOM event wiring and `renderer.render`: browser plumbing. A frame that throws at line 220 also skips its render; the model does not capture rendering at all.
- The asynchronous `OBJLoader` load, its progress and error callbacks: asynchronous I/O. Only the success callback's append is modelled (`OnMeshLoaded`), and the order of `castingMeshes` is not kept, because the objects are a map from id.
- `performance.now()` returns fractional milliseconds; the model uses whole milliseconds.
- Shared materials: each object has its own emissive colour in the model, while in three.js `intersected.material` is a reference that two objects could share. Nothing is lost here, because the single `loader.load` pushes one object.
- The floating-point colour inside three.js: `setHex` followed by `getHex` is taken to give back the same 24-bit value.

## Findings

| source | as written | input that shows it | evidently intended | confidence | as-written member | corrected member |
|---|---|---|---|---|---|---|
| src/lib/three/main.js:220 | reads the undeclared `INTERSECTED`, which throws a ReferenceError after the slot was reassigned and before the object is painted red; `currentHex` is never written | a frame whose nearest hit is an object other than the one in the slot (for one, the slot is empty and the pointer is over any pickable object) | save the new object's own colour, `intersected.material.emissive.getHex()`, then paint it red | high; not executed | `Highlight.StepAsWritten` (`Highlight.AsWrittenBreaksShows`, `Highlight.AsWrittenLosesColour`) | `Highlight.Step` (`Highlight.FramesKeepShows`, `Highlight.ColoursRestoredAfterMiss`) |
