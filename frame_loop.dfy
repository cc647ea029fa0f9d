/**
 One pass of the demo's frame loop, as far as the player node is concerned:
 the loop reads the node's position and rotation, polls the W, S, A, D and L
 keys, nudges the pitch or the yaw by one degree, runs the adjusted rotation
 through the players module's helper `rotiraj` and writes position and
 rotation back to the node.

 The helper's body is not part of this model. `Rotate`, `HeldFor` and
 `FrameUpdate` take it as a parameter `rotiraj` and assume nothing about it;
 `RotateAddsStep` and `HeldKeysAccumulate` fix it to the identity, and
 `RollOnlyFromHelper` assumes only that it keeps the roll.
 */
module FrameLoop {
  import opened KeyState
  import opened EventReceiver

  /** A scene-node vector (position or rotation in degrees). The engine's
      32-bit floats are modelled as reals. */
  datatype Vec3 = Vec3(x: real, y: real, z: real)

  /** The per-frame change the keys ask for on pitch (X) and yaw (Y). No key
      edits the roll (Z), so a step has no roll component. */
  datatype Step = Step(dX: int, dY: int)

  /** The engine's key codes for the keys the loop polls. */
  datatype KeyCodes = KeyCodes(w: nat, s: nat, a: nat, d: nat, l: nat)

  datatype Option<T> = None | Some(value: T)

  /** What one frame hands back to the engine: the node's new position and
      rotation, and the camera target set this frame, if any. */
  datatype Frame = Frame(position: Vec3, rotation: Vec3, cameraTarget: Option<Vec3>)

  predicate InTable(keys: KeyCodes, n: nat) {
    keys.w < n && keys.s < n && keys.a < n && keys.d < n && keys.l < n
  }

  /** The rotation step chosen by the held keys: W before S on pitch,
      A before D on yaw. */
  function RotationStep(wDown: bool, sDown: bool, aDown: bool, dDown: bool): (step: Step)
    ensures wDown ==> step.dX == 1
    ensures !wDown && sDown ==> step.dX == -1
    ensures !wDown && !sDown ==> step.dX == 0
    ensures aDown ==> step.dY == -1
    ensures !aDown && dDown ==> step.dY == 1
    ensures !aDown && !dDown ==> step.dY == 0
  {
    var pitch := if wDown then 1 else if sDown then -1 else 0;
    var yaw := if aDown then -1 else if dDown then 1 else 0;
    Step(pitch, yaw)
  }

  /** Holding both keys of a pair is the same as holding only the one that
      takes priority. */
  lemma OppositeKeysResolved(sDown: bool, dDown: bool, wDown: bool, aDown: bool)
    ensures RotationStep(true, sDown, aDown, dDown) == RotationStep(true, false, aDown, dDown)
    ensures RotationStep(wDown, sDown, true, dDown) == RotationStep(wDown, sDown, true, false)
  {
  }

  function Offset(v: Vec3, dX: int, dY: int): Vec3 {
    Vec3(v.x + dX as real, v.y + dY as real, v.z)
  }

  /** The rotation after applying a step: a nonzero pitch step is added to X
      and the vector passed through the helper, then a nonzero yaw step is
      added to Y and the vector passed through the helper again. An axis with
      a zero step is left alone and does not call the helper. */
  function Rotate(rotiraj: Vec3 -> Vec3, rotation: Vec3, step: Step): (r: Vec3)
    ensures step.dX == 0 && step.dY == 0 ==> r == rotation
    ensures step.dX != 0 || step.dY != 0 ==> exists v :: r == rotiraj(v)
  {
    var pitched := if step.dX == 0 then rotation else rotiraj(Offset(rotation, step.dX, 0));
    if step.dY == 0 then pitched else rotiraj(Offset(pitched, 0, step.dY))
  }

  /** A frame's edits happen pitch first, then yaw: the full step is the
      pitch-only step followed by the yaw-only step. */
  lemma PitchBeforeYaw(rotiraj: Vec3 -> Vec3, rotation: Vec3, step: Step)
    ensures Rotate(rotiraj, rotation, step) ==
            Rotate(rotiraj, Rotate(rotiraj, rotation, Step(step.dX, 0)), Step(0, step.dY))
  {
  }

  /** With no key held the rotation is untouched, whatever the helper. */
  lemma NoKeysNoChange(rotiraj: Vec3 -> Vec3, rotation: Vec3)
    ensures Rotate(rotiraj, rotation, RotationStep(false, false, false, false)) == rotation
  {
  }

  /** Key handling itself only adds the step on pitch and yaw: with a helper
      that changes nothing, the new rotation is the old one plus the step,
      and the roll is kept. */
  lemma RotateAddsStep(rotation: Vec3, wDown: bool, sDown: bool, aDown: bool, dDown: bool)
    ensures var step := RotationStep(wDown, sDown, aDown, dDown);
            Rotate(v => v, rotation, step) ==
            Vec3(rotation.x + step.dX as real, rotation.y + step.dY as real, rotation.z)
  {
  }

  /** Key handling never edits the roll: any change to Z can only come from
      the helper. */
  lemma RollOnlyFromHelper(rotiraj: Vec3 -> Vec3, rotation: Vec3, step: Step)
    requires forall v :: rotiraj(v).z == v.z
    ensures Rotate(rotiraj, rotation, step).z == rotation.z
  {
  }

  /** The rotation after the same step has been taken on `frames`
      consecutive iterations of the frame loop. Holding no movement key for
      any number of frames leaves the rotation as it was. */
  function HeldFor(rotiraj: Vec3 -> Vec3, rotation: Vec3, step: Step, frames: nat): (r: Vec3)
    ensures step.dX == 0 && step.dY == 0 ==> r == rotation
    decreases frames
  {
    if frames == 0 then rotation
    else Rotate(rotiraj, HeldFor(rotiraj, rotation, step, frames - 1), step)
  }

  /** Holding the same keys for k frames moves pitch and yaw by k steps when
      the helper changes nothing; the roll is kept. */
  lemma {:induction false} HeldKeysAccumulate(rotation: Vec3, step: Step, frames: nat)
    ensures HeldFor(v => v, rotation, step, frames) ==
            Vec3(rotation.x + (frames * step.dX) as real,
                 rotation.y + (frames * step.dY) as real,
                 rotation.z)
    decreases frames
  {
    if frames > 0 {
      HeldKeysAccumulate(rotation, step, frames - 1);
      assert (frames - 1) * step.dX + step.dX == frames * step.dX;
      assert (frames - 1) * step.dY + step.dY == frames * step.dY;
    }
  }

  /** The body of the frame loop for the player node: polls the keys in the
      source's order, edits the rotation in place and passes it through the
      helper after each edit, retargets the camera at the node's position
      while L is held, and hands back the position unchanged. */
  method FrameUpdate(receiver: MyEventReceiver, keys: KeyCodes, rotiraj: Vec3 -> Vec3,
                     position: Vec3, rotation: Vec3)
    returns (frame: Frame)
    requires receiver.Valid()
    requires InTable(keys, receiver.keyIsDown.Length)
    ensures frame.position == position
    ensures frame.rotation ==
            Rotate(rotiraj, rotation,
                   RotationStep(receiver.IsKeyDown(keys.w), receiver.IsKeyDown(keys.s),
                                receiver.IsKeyDown(keys.a), receiver.IsKeyDown(keys.d)))
    ensures frame.cameraTarget == if receiver.IsKeyDown(keys.l) then Some(position) else None
  {
    var nodePosition := position;
    var nodeRotation := rotation;
    if receiver.IsKeyDown(keys.w) {
      nodeRotation := nodeRotation.(x := nodeRotation.x + 1.0);
      nodeRotation := rotiraj(nodeRotation);
    } else if receiver.IsKeyDown(keys.s) {
      nodeRotation := nodeRotation.(x := nodeRotation.x - 1.0);
      nodeRotation := rotiraj(nodeRotation);
    }
    if receiver.IsKeyDown(keys.a) {
      nodeRotation := nodeRotation.(y := nodeRotation.y - 1.0);
      nodeRotation := rotiraj(nodeRotation);
    } else if receiver.IsKeyDown(keys.d) {
      nodeRotation := nodeRotation.(y := nodeRotation.y + 1.0);
      nodeRotation := rotiraj(nodeRotation);
    }
    var target := None;
    if receiver.IsKeyDown(keys.l) {
      target := Some(nodePosition);
    }
    frame := Frame(nodePosition, nodeRotation, target);
  }

  /** A W key held since its last press makes the frame raise the pitch,
      whatever events for other keys, or of other kinds, arrived since. */
  lemma PressedKeyTurns(receiver: MyEventReceiver, keys: KeyCodes,
                        before: seq<Event>, since: seq<Event>)
    requires InTable(keys, receiver.keyIsDown.Length)
    requires receiver.Valid()
    requires receiver.history == before + [KeyInput(keys.w, true)] + since
    requires forall i :: 0 <= i < |since| ==> !(since[i].KeyInput? && since[i].key == keys.w)
    ensures RotationStep(receiver.IsKeyDown(keys.w), receiver.IsKeyDown(keys.s),
                         receiver.IsKeyDown(keys.a), receiver.IsKeyDown(keys.d)).dX == 1
  {
    LatestSurvivesOtherKeys(before, keys.w, true, since, false);
  }
}
