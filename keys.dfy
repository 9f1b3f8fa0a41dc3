/**
 * The movement-key state of the first-person controller in src/lib/three/main.js:
 * four booleans (`moveForward`, `moveBackward`, `moveLeft`, `moveRight`) that the
 * `keydown` and `keyup` handlers set and clear, and the per-axis direction signs that
 * the frame loop derives from them.
 *
 * This module holds the value-level specification; the class that owns the flags
 * and updates them in place is `Scene.SceneState`.
 */
module Keys {
  import opened Opt

  /** The four movement directions, one per flag. */
  datatype Direction = Forward | Backward | Left | Right

  /** A snapshot of the four flags. */
  datatype Held = Held(forward: bool, backward: bool, left: bool, right: bool)
  {
    /** The flag that belongs to direction `d`. */
    function Get(d: Direction): bool
    {
      match d
      case Forward => forward
      case Backward => backward
      case Left => left
      case Right => right
    }

    /** The snapshot with the flag of `d` set to `b` and the other three kept. */
    function With(d: Direction, b: bool): (r: Held)
      ensures r.Get(d) == b
      ensures forall e :: e != d ==> r.Get(e) == Get(e)
    {
      match d
      case Forward => this.(forward := b)
      case Backward => this.(backward := b)
      case Left => this.(left := b)
      case Right => this.(right := b)
    }
  }

  /** All flags released: the initial value of the four `let` declarations. */
  const NoneHeld := Held(false, false, false, false)

  /** The eight `KeyboardEvent.code` values that both handlers recognise. */
  const MovementCodes: set<string> :=
    {"ArrowUp", "KeyW", "ArrowLeft", "KeyA", "ArrowDown", "KeyS", "ArrowRight", "KeyD"}

  /** The direction a key code stands for: an arrow key or its WASD alias.
      Every other code stands for none (the `switch` has no `default`). */
  function KeyDirection(code: string): Option<Direction>
  {
    if code == "ArrowUp" || code == "KeyW" then Some(Forward)
    else if code == "ArrowLeft" || code == "KeyA" then Some(Left)
    else if code == "ArrowDown" || code == "KeyS" then Some(Backward)
    else if code == "ArrowRight" || code == "KeyD" then Some(Right)
    else None
  }

  /** The flags after a `keydown` event with the given code. */
  function AfterKeyDown(h: Held, code: string): (r: Held)
    ensures match KeyDirection(code)
            case Some(d) => r.Get(d) && forall e :: e != d ==> r.Get(e) == h.Get(e)
            case None => r == h
  {
    match KeyDirection(code)
    case Some(d) => h.With(d, true)
    case None => h
  }

  /** The flags after a `keyup` event with the given code. */
  function AfterKeyUp(h: Held, code: string): (r: Held)
    ensures match KeyDirection(code)
            case Some(d) => !r.Get(d) && forall e :: e != d ==> r.Get(e) == h.Get(e)
            case None => r == h
  {
    match KeyDirection(code)
    case Some(d) => h.With(d, false)
    case None => h
  }

  /** Which code sets which flag: each arrow key and its letter alias act alike. */
  lemma CodeTable(h: Held)
    ensures AfterKeyDown(h, "ArrowUp") == AfterKeyDown(h, "KeyW") == h.(forward := true)
    ensures AfterKeyDown(h, "ArrowLeft") == AfterKeyDown(h, "KeyA") == h.(left := true)
    ensures AfterKeyDown(h, "ArrowDown") == AfterKeyDown(h, "KeyS") == h.(backward := true)
    ensures AfterKeyDown(h, "ArrowRight") == AfterKeyDown(h, "KeyD") == h.(right := true)
    ensures AfterKeyUp(h, "ArrowUp") == AfterKeyUp(h, "KeyW") == h.(forward := false)
    ensures AfterKeyUp(h, "ArrowLeft") == AfterKeyUp(h, "KeyA") == h.(left := false)
    ensures AfterKeyUp(h, "ArrowDown") == AfterKeyUp(h, "KeyS") == h.(backward := false)
    ensures AfterKeyUp(h, "ArrowRight") == AfterKeyUp(h, "KeyD") == h.(right := false)
  {
  }

  /** A code outside the eight changes no flag on either event. */
  lemma UnknownCodeIgnored(h: Held, code: string)
    requires code !in MovementCodes
    ensures AfterKeyDown(h, code) == h
    ensures AfterKeyUp(h, code) == h
  {
  }

  /** Auto-repeated key-down events have no further effect. */
  lemma KeyDownIdempotent(h: Held, code: string)
    ensures AfterKeyDown(AfterKeyDown(h, code), code) == AfterKeyDown(h, code)
  {
  }

  /** Pressing one alias of a direction and releasing either alias leaves that flag
      released, whatever it was before, and the other flags as they were. */
  lemma DownThenUpReleases(h: Held, down: string, up: string, d: Direction)
    requires KeyDirection(down) == Some(d) && KeyDirection(up) == Some(d)
    ensures AfterKeyUp(AfterKeyDown(h, down), up) == h.With(d, false)
  {
  }

  /** A key event as delivered by the browser. */
  datatype KeyEvent = Down(code: string) | Up(code: string)

  function Apply(h: Held, e: KeyEvent): Held
  {
    match e
    case Down(c) => AfterKeyDown(h, c)
    case Up(c) => AfterKeyUp(h, c)
  }

  /** The flags after handling `evs` in order, starting from `h`. */
  function Run(h: Held, evs: seq<KeyEvent>): Held
    decreases |evs|
  {
    if evs == [] then h else Apply(Run(h, evs[..|evs| - 1]), evs[|evs| - 1])
  }

  /** Event `e` is a key event for direction `d`. */
  predicate Touches(e: KeyEvent, d: Direction)
  {
    KeyDirection(e.code) == Some(d)
  }

  /** No event of `evs` from index `from` on is for direction `d`. */
  ghost predicate UntouchedFrom(evs: seq<KeyEvent>, from: nat, d: Direction)
  {
    forall j :: from <= j < |evs| ==> !Touches(evs[j], d)
  }

  /** Reference meaning of a flag: it is held exactly when the last event for its
      direction was a key-down, or when there was no such event and it was held
      to begin with. */
  ghost predicate HeldAfter(h: Held, evs: seq<KeyEvent>, d: Direction)
  {
    (exists i :: 0 <= i < |evs| && Touches(evs[i], d) && evs[i].Down? && UntouchedFrom(evs, i + 1, d))
    || (h.Get(d) && UntouchedFrom(evs, 0, d))
  }

  /** One event changes the flag of `d` exactly when it is an event for `d`. */
  lemma ApplyGet(h: Held, e: KeyEvent, d: Direction)
    ensures Apply(h, e).Get(d) == if Touches(e, d) then e.Down? else h.Get(d)
  {
  }

  /** How the reference meaning of a flag extends by one event. */
  lemma HeldAfterSnoc(h: Held, p: seq<KeyEvent>, e: KeyEvent, d: Direction)
    ensures HeldAfter(h, p + [e], d) == if Touches(e, d) then e.Down? else HeldAfter(h, p, d)
  {
    var evs, n := p + [e], |p| + 1;
    assert evs[n - 1] == e;
    if Touches(e, d) {
      assert !UntouchedFrom(evs, 0, d);
      if e.Down? {
        assert Touches(evs[n - 1], d) && evs[n - 1].Down? && UntouchedFrom(evs, n, d);
      } else {
        forall i | 0 <= i < n && Touches(evs[i], d) && evs[i].Down?
          ensures !UntouchedFrom(evs, i + 1, d)
        {
          assert i < n - 1;
        }
      }
    } else {
      forall k: nat
        ensures UntouchedFrom(p, k, d) <==> UntouchedFrom(evs, k, d)
      {
        if UntouchedFrom(p, k, d) {
          forall j | k <= j < n ensures !Touches(evs[j], d) {
            if j < n - 1 { assert evs[j] == p[j]; }
          }
        }
        if UntouchedFrom(evs, k, d) {
          forall j | k <= j < n - 1 ensures !Touches(p[j], d) {
            assert evs[j] == p[j];
          }
        }
      }
      if HeldAfter(h, p, d) && !UntouchedFrom(p, 0, d) {
        var i :| 0 <= i < |p| && Touches(p[i], d) && p[i].Down? && UntouchedFrom(p, i + 1, d);
        assert evs[i] == p[i];
      }
      if HeldAfter(h, evs, d) && !UntouchedFrom(evs, 0, d) {
        var i :| 0 <= i < n && Touches(evs[i], d) && evs[i].Down? && UntouchedFrom(evs, i + 1, d);
        assert i < n - 1;
        assert p[i] == evs[i];
      }
    }
  }

  /** After any stream of key events each flag reflects the last event for its direction. */
  lemma {:induction false} RunMeansLastEvent(h: Held, evs: seq<KeyEvent>, d: Direction)
    ensures Run(h, evs).Get(d) <==> HeldAfter(h, evs, d)
    decreases |evs|
  {
    if evs != [] {
      var p, e := evs[..|evs| - 1], evs[|evs| - 1];
      assert evs == p + [e];
      RunMeansLastEvent(h, p, d);
      ApplyGet(Run(h, p), e, d);
      HeldAfterSnoc(h, p, e, d);
    }
  }

  /** JavaScript's `Number(b)` on a boolean. */
  function Number(b: bool): int
  {
    if b then 1 else 0
  }

  /** One component of `direction`: `Number(pos) - Number(neg)`. */
  function Axis(pos: bool, neg: bool): (r: int)
    ensures -1 <= r <= 1
    ensures r == 0 <==> pos == neg
    ensures r == 1 <==> pos && !neg
    ensures r == -1 <==> neg && !pos
  {
    Number(pos) - Number(neg)
  }

  /** The discrete inputs of one locomotion step: the two direction signs before
      normalisation, whether each axis is accelerated, and the elapsed time. */
  datatype Drive = Drive(dirZ: int, dirX: int, accelZ: bool, accelX: bool, elapsedMs: int)

  /** The drive derived from the held keys: `direction.z` from forward/backward,
      `direction.x` from right/left, and the guards of the two acceleration lines. */
  function DriveOf(h: Held, elapsedMs: int): (r: Drive)
    ensures r.dirZ in {-1, 0, 1} && r.dirX in {-1, 0, 1}
    ensures r.dirZ == 0 <==> h.forward == h.backward
    ensures r.dirX == 0 <==> h.right == h.left
    ensures r.dirZ == 1 <==> h.forward && !h.backward
    ensures r.dirX == 1 <==> h.right && !h.left
    ensures r.accelZ <==> h.forward || h.backward
    ensures r.accelX <==> h.left || h.right
    ensures r.dirZ != 0 ==> r.accelZ
    ensures r.dirX != 0 ==> r.accelX
    ensures r.elapsedMs == elapsedMs
  {
    Drive(Axis(h.forward, h.backward), Axis(h.right, h.left),
          h.forward || h.backward, h.left || h.right, elapsedMs)
  }
}
