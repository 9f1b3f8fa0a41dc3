/**
 * The module-level state of src/lib/three/main.js that the input handlers and the
 * frame callback `animate` update in place: the four movement flags, `prevTime`,
 * the controller's motion, the `intersected` slot and the pickable objects.
 *
 * The controller's motion (the `velocity` vector and the camera pose) is floating
 * point and is kept abstract as the type parameter `M`; the float integration of
 * lines 198-210 is the parameter `integrate` of `Animate`, which receives the
 * discrete inputs the model does compute (`Keys.Drive`).
 */
module Scene {
  import opened Opt
  import opened Keys
  import opened Highlight

  class SceneState<M> {
    var moveForward: bool
    var moveBackward: bool
    var moveLeft: bool
    var moveRight: bool
    /** Timestamp of the previous frame, in whole milliseconds. */
    var prevTime: int
    /** Velocity and controller pose: floating point, not modelled. */
    var motion: M
    /** The `intersected` slot. */
    var intersected: Option<ObjId>
    /** The objects of `castingMeshes` with their emissive and saved colours. */
    var meshes: map<ObjId, Mesh>
    /** The colour each object shows when it is not highlighted. */
    ghost var original: map<ObjId, Hex>

    ghost predicate Valid()
      reads this
    {
      Shows(View(intersected, meshes), original)
    }

    function HeldKeys(): Held
      reads this
    {
      Held(moveForward, moveBackward, moveLeft, moveRight)
    }

    function CurrentView(): View
      reads this
    {
      View(intersected, meshes)
    }

    /** Page start: no key held, nothing highlighted, nothing loaded yet, and
        `prevTime` taken from the clock. */
    constructor (startTime: int, motion0: M)
      ensures Valid()
      ensures HeldKeys() == NoneHeld
      ensures prevTime == startTime && motion == motion0
      ensures intersected == None && meshes == map[]
    {
      moveForward, moveBackward, moveLeft, moveRight := false, false, false, false;
      prevTime := startTime;
      motion := motion0;
      intersected := None;
      meshes := map[];
      original := map[];
    }

    /** The `keydown` handler. */
    method OnKeyDown(code: string)
      modifies this`moveForward, this`moveBackward, this`moveLeft, this`moveRight
      ensures HeldKeys() == AfterKeyDown(old(HeldKeys()), code)
    {
      if code == "ArrowUp" || code == "KeyW" {
        moveForward := true;
      } else if code == "ArrowLeft" || code == "KeyA" {
        moveLeft := true;
      } else if code == "ArrowDown" || code == "KeyS" {
        moveBackward := true;
      } else if code == "ArrowRight" || code == "KeyD" {
        moveRight := true;
      }
    }

    /** The `keyup` handler. */
    method OnKeyUp(code: string)
      modifies this`moveForward, this`moveBackward, this`moveLeft, this`moveRight
      ensures HeldKeys() == AfterKeyUp(old(HeldKeys()), code)
    {
      if code == "ArrowUp" || code == "KeyW" {
        moveForward := false;
      } else if code == "ArrowLeft" || code == "KeyA" {
        moveLeft := false;
      } else if code == "ArrowDown" || code == "KeyS" {
        moveBackward := false;
      } else if code == "ArrowRight" || code == "KeyD" {
        moveRight := false;
      }
    }

    /** The loader's success callback: the loaded object is appended to the
        pickable list, and nothing that was there before changes. */
    method OnMeshLoaded(id: ObjId, mesh: Mesh)
      requires Valid() && id !in meshes
      modifies this`meshes, this`original
      ensures Valid()
      ensures meshes == old(meshes)[id := mesh]
      ensures original == old(original)[id := mesh.emissive]
    {
      meshes := meshes[id := mesh];
      original := original[id := mesh.emissive];
    }

    /**
     * One call of `animate`, without the scene rendering: the lock gate of the
     * locomotion step, the `prevTime` update and the highlight update, with the
     * intended reading of line 220 (see `Highlight.Step`).
     */
    method Animate(time: int, isLocked: bool, hit: Option<ObjId>, integrate: (M, Drive) -> M)
      requires Valid() && HitIn(hit, meshes)
      modifies this`prevTime, this`motion, this`intersected, this`meshes
      ensures Valid()
      ensures motion == if isLocked then integrate(old(motion), DriveOf(HeldKeys(), time - old(prevTime)))
                        else old(motion)
      ensures prevTime == time
      ensures CurrentView() == Step(old(CurrentView()), hit)
    {
      StepKeepsShows(CurrentView(), original, hit);
      if isLocked {
        motion := integrate(motion, DriveOf(HeldKeys(), time - prevTime));
      }
      prevTime := time;
      UpdateHighlight(hit);
    }

    /** Lines 216-226: the highlight update for this frame's nearest hit. */
    method UpdateHighlight(hit: Option<ObjId>)
      requires WellFormed(CurrentView()) && HitIn(hit, meshes)
      modifies this`intersected, this`meshes
      ensures CurrentView() == Step(old(CurrentView()), hit)
    {
      ghost var before := CurrentView();
      match hit {
        case Some(b) =>
          if intersected != Some(b) {
            if intersected.Some? {
              var a := intersected.value;
              meshes := meshes[a := meshes[a].(emissive := meshes[a].currentHex)];
            }
            assert meshes == RestoreSlot(before);
            intersected := Some(b);
            meshes := meshes[b := meshes[b].(currentHex := meshes[b].emissive)];
            meshes := meshes[b := meshes[b].(emissive := Red)];
            assert meshes == RestoreSlot(before)[b := Mesh(Red, RestoreSlot(before)[b].emissive)];
          }
        case None =>
          if intersected.Some? {
            var a := intersected.value;
            meshes := meshes[a := meshes[a].(emissive := meshes[a].currentHex)];
          }
          assert meshes == RestoreSlot(before);
          intersected := None;
      }
    }
  }
}
