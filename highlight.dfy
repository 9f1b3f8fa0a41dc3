/**
 * The hover highlight of src/lib/three/main.js: each frame the nearest object under
 * the pointer is highlighted by painting its emissive colour red, after its own
 * colour has been saved in its `currentHex` field; the colour is put back when the
 * pointer leaves it. The state is the `intersected` slot and, per pickable object,
 * its emissive colour and its saved `currentHex`.
 *
 * The raycast that finds the nearest hit is not modelled: each frame receives the hit
 * as an input, `None` or `Some(id)` of an object in the pickable list.
 */
module Highlight {
  import opened Opt

  /** The identity of a pickable object; line 217 compares objects by reference. */
  type ObjId = nat

  /** A 24-bit RGB colour as `Color.setHex` takes it and `Color.getHex` returns it. */
  type Hex = x: int | 0 <= x <= 0xFF_FFFF

  /** The highlight colour painted at line 221. */
  const Red: Hex := 0xFF_0000

  /** A pickable object's state: its emissive colour and its saved `currentHex`. */
  datatype Mesh = Mesh(emissive: Hex, currentHex: Hex)

  /** The highlight state: the `intersected` slot and the pickable objects. */
  datatype View = View(slot: Option<ObjId>, meshes: map<ObjId, Mesh>)

  /** `hit` is empty or names one of `meshes`. */
  predicate HitIn(hit: Option<ObjId>, meshes: map<ObjId, Mesh>)
  {
    hit.Some? ==> hit.value in meshes
  }

  /** The slot names nothing or one of the objects. */
  predicate WellFormed(v: View)
  {
    HitIn(v.slot, v.meshes)
  }

  /** The object in the slot, if any, gets its saved colour back. */
  function RestoreSlot(v: View): (m: map<ObjId, Mesh>)
    requires WellFormed(v)
    ensures m.Keys == v.meshes.Keys
    ensures forall id :: id in m && Some(id) != v.slot ==> m[id] == v.meshes[id]
    ensures v.slot.Some? ==>
              m[v.slot.value] == v.meshes[v.slot.value].(emissive := v.meshes[v.slot.value].currentHex)
  {
    match v.slot
    case None => v.meshes
    case Some(a) => v.meshes[a := v.meshes[a].(emissive := v.meshes[a].currentHex)]
  }

  /**
   * One frame of the highlight, under the intended reading of line 220: the colour
   * saved for the newly hit object is its own emissive colour
   * (`intersected.material.emissive.getHex()`). The line as written reads the
   * undeclared name `INTERSECTED`; that behaviour is `StepAsWritten` below.
   */
  function Step(v: View, hit: Option<ObjId>): (r: View)
    requires WellFormed(v) && HitIn(hit, v.meshes)
    ensures WellFormed(r) && r.meshes.Keys == v.meshes.Keys
    ensures r.slot == hit
    // the same object stays nearest: nothing changes, its true colour is not re-saved
    ensures hit.Some? && hit == v.slot ==> r == v
    // the nearest object changes: the old one is restored, the new one saved and painted
    ensures hit.Some? && hit != v.slot ==>
              var b := hit.value;
              && r.meshes[b] == Mesh(Red, v.meshes[b].emissive)
              && (v.slot.Some? ==> r.meshes[v.slot.value].emissive == v.meshes[v.slot.value].currentHex
                                   && r.meshes[v.slot.value].currentHex == v.meshes[v.slot.value].currentHex)
              && forall id :: id in r.meshes && Some(id) != v.slot && id != b ==> r.meshes[id] == v.meshes[id]
    // no hit: the old object is restored and the slot is emptied
    ensures hit.None? ==>
              && (v.slot.Some? ==> r.meshes[v.slot.value] == v.meshes[v.slot.value].(emissive := v.meshes[v.slot.value].currentHex))
              && forall id :: id in r.meshes && Some(id) != v.slot ==> r.meshes[id] == v.meshes[id]
  {
    match hit
    case Some(b) =>
      if v.slot == Some(b) then v
      else
        var m := RestoreSlot(v);
        View(Some(b), m[b := Mesh(Red, m[b].emissive)])
    case None => View(None, RestoreSlot(v))
  }

  /**
   * The highlight invariant relative to `orig`, the colour each object shows when it
   * is not highlighted: the object in the slot is red and has its true colour saved,
   * every other object shows its true colour.
   */
  ghost predicate Shows(v: View, orig: map<ObjId, Hex>)
  {
    && WellFormed(v)
    && orig.Keys == v.meshes.Keys
    && forall id :: id in v.meshes ==>
         if v.slot == Some(id) then v.meshes[id].emissive == Red && v.meshes[id].currentHex == orig[id]
         else v.meshes[id].emissive == orig[id]
  }

  /** Every frame keeps the invariant. */
  lemma StepKeepsShows(v: View, orig: map<ObjId, Hex>, hit: Option<ObjId>)
    requires Shows(v, orig) && HitIn(hit, v.meshes)
    ensures Shows(Step(v, hit), orig)
  {
  }

  /** Every hit of a sequence of frames names one of `meshes`. */
  predicate AllIn(hits: seq<Option<ObjId>>, meshes: map<ObjId, Mesh>)
  {
    forall i :: 0 <= i < |hits| ==> HitIn(hits[i], meshes)
  }

  /** The state after one frame per element of `hits`, in order. */
  function Frames(v: View, hits: seq<Option<ObjId>>): (r: View)
    requires WellFormed(v) && AllIn(hits, v.meshes)
    ensures WellFormed(r) && r.meshes.Keys == v.meshes.Keys
    ensures r.slot == if hits == [] then v.slot else hits[|hits| - 1]
    decreases |hits|
  {
    if hits == [] then v
    else
      var w := Step(v, hits[0]);
      assert AllIn(hits[1..], w.meshes) by {
        forall i | 0 <= i < |hits[1..]| ensures HitIn(hits[1..][i], w.meshes) {
          assert hits[1..][i] == hits[i + 1];
        }
      }
      Frames(w, hits[1..])
  }

  /** The invariant holds after any number of frames. */
  lemma {:induction false} FramesKeepShows(v: View, orig: map<ObjId, Hex>, hits: seq<Option<ObjId>>)
    requires Shows(v, orig) && AllIn(hits, v.meshes)
    ensures Shows(Frames(v, hits), orig)
    decreases |hits|
  {
    if hits != [] {
      var w := Step(v, hits[0]);
      StepKeepsShows(v, orig, hits[0]);
      assert AllIn(hits[1..], w.meshes) by {
        forall i | 0 <= i < |hits[1..]| ensures HitIn(hits[1..][i], w.meshes) {
          assert hits[1..][i] == hits[i + 1];
        }
      }
      FramesKeepShows(w, orig, hits[1..]);
    }
  }

  /** No colour drift: whatever objects were highlighted on the way, once a frame has
      no hit every object shows exactly its true colour again. */
  lemma ColoursRestoredAfterMiss(v: View, orig: map<ObjId, Hex>, hits: seq<Option<ObjId>>)
    requires Shows(v, orig) && AllIn(hits, v.meshes)
    requires hits != [] && hits[|hits| - 1] == None
    ensures Frames(v, hits).slot == None
    ensures forall id :: id in v.meshes ==> id in Frames(v, hits).meshes && Frames(v, hits).meshes[id].emissive == orig[id]
  {
    FramesKeepShows(v, orig, hits);
  }

  /** The objects currently painted in the highlight colour. */
  function RedIds(v: View): set<ObjId>
  {
    set id | id in v.meshes && v.meshes[id].emissive == Red
  }

  /** When no object is red by itself, exactly the slot's object is red: one object
      when the last frame had a hit, none otherwise. */
  lemma AtMostOneRed(v: View, orig: map<ObjId, Hex>)
    requires Shows(v, orig)
    requires forall id :: id in orig ==> orig[id] != Red
    ensures RedIds(v) == if v.slot.Some? then {v.slot.value} else {}
    ensures |RedIds(v)| <= 1
  {
  }

  /** How a frame of the code as written ends: normally, or with the ReferenceError
      that reading the undeclared `INTERSECTED` raises at line 220. */
  datatype Outcome = Completed(view: View) | ReferenceError(view: View)

  /**
   * One frame of the code as written. When the nearest object changes, the old one is
   * restored and the slot is reassigned (lines 218-219); line 220 then throws, so the
   * new object's colour is not saved and it is not painted red (line 221 never runs).
   * The frame loop goes on, since the next frame was already requested at line 192.
   */
  function StepAsWritten(v: View, hit: Option<ObjId>): (r: Outcome)
    requires WellFormed(v) && HitIn(hit, v.meshes)
    ensures r.view.slot == hit && r.view.meshes.Keys == v.meshes.Keys
    ensures r.ReferenceError? <==> hit.Some? && hit != v.slot
    ensures r.ReferenceError? ==> r.view.meshes == RestoreSlot(v)
  {
    match hit
    case Some(b) =>
      if v.slot == Some(b) then Completed(v)
      else ReferenceError(View(Some(b), RestoreSlot(v)))
    case None => Completed(View(None, RestoreSlot(v)))
  }

  /** Apart from a change of the nearest object, the code as written agrees with `Step`. */
  lemma AsWrittenAgreesOtherwise(v: View, hit: Option<ObjId>)
    requires WellFormed(v) && HitIn(hit, v.meshes)
    requires hit.None? || hit == v.slot
    ensures StepAsWritten(v, hit) == Completed(Step(v, hit))
  {
  }

  /** The code as written breaks the highlight invariant on every change of the
      nearest object to one that is not red by itself: the object is in the slot but
      is not red, and its colour was not saved. */
  lemma AsWrittenBreaksShows(v: View, orig: map<ObjId, Hex>, b: ObjId)
    requires Shows(v, orig) && b in v.meshes && v.slot != Some(b) && orig[b] != Red
    ensures StepAsWritten(v, Some(b)).view.slot == Some(b)
    ensures StepAsWritten(v, Some(b)).view.meshes[b].emissive != Red
    ensures !Shows(StepAsWritten(v, Some(b)).view, orig)
  {
  }

  /** A green object whose `currentHex` was never written: hovering it and moving off
      puts the unwritten value back under the code as written, and green under `Step`.
      JavaScript passes `undefined` to `setHex` there; the model has no such colour and
      uses 0 as a chosen stand-in for it. */
  lemma AsWrittenLosesColour()
    ensures var v0 := View(None, map[1 := Mesh(0x00_FF00, 0)]);
            && StepAsWritten(v0, Some(1)).ReferenceError?
            && StepAsWritten(StepAsWritten(v0, Some(1)).view, None).view.meshes[1].emissive == 0
            && Step(Step(v0, Some(1)), None).meshes[1].emissive == 0x00_FF00
  {
  }
}
