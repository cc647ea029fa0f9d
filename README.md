# odd_game: key state and per-frame rotation, in Dafny

The demo opens an Irrlicht window and shows a terrain and a player mesh. It
then runs a frame loop that turns the player node while W, S, A or D is
held. The demo's own logic is small:

- **`MyEventReceiver`** (module `EventReceiver`): a fixed-size array of
  key-down flags, one per engine key code, all cleared by the constructor.
  `OnEvent` copies a key event's `PressedDown` flag into that key's slot. It
  ignores every other kind of event and always answers "not consumed".
  `IsKeyDown` reads one slot. The class keeps a ghost history of the events
  it has received. Its invariant ties the array to the replay of that history
  (module `KeyState`). So `IsKeyDown` is proved to return the flag of the
  most recent key event for that key, or false when there has been none.
- **The frame loop's key handling** (module `FrameLoop`):
  - W raises the pitch by one and takes priority over S, which lowers it.
  - A lowers the yaw by one and takes priority over D, which raises it.
  - Roll is never edited, and the position is written back as it was read.
  - After each edit the whole rotation goes through the players module's
    helper `rotiraj`.
  - L points the camera at the node's position.

  `RotationStep` is the key-to-step rule as a pure function. `Rotate` applies
  a step through the helper. `FrameUpdate` is the loop body, written the
  way the source writes it and proved equal to `Rotate` of `RotationStep`.

Modelling choices:

- `KEY_KEY_CODES_COUNT` is the constructor's `keyCodesCount` parameter, which
  becomes the array length. The key codes of W, S, A, D and L are the
  `KeyCodes` parameter of `FrameUpdate`. The engine header that fixes their
  values is not part of this model.
- The source indexes the array without a check. `OnEvent` and `IsKeyDown`
  therefore require the key code to name a slot.
- players.h:8 declares `rotiraj` without a body, so the model asserts
  nothing about the range of its result. `Rotate`, `HeldFor` and
  `FrameUpdate` take it as a parameter `rotiraj` and assume nothing about it.
  `RotateAddsStep` and `HeldKeysAccumulate` fix it to the identity.
  `RollOnlyFromHelper` assumes only that it keeps the roll.
- No key edits the roll, so a `Step` has pitch and yaw components only.
- The engine's `f32` vectors are modelled as `real` triples.

## Model

| member | source | states |
|---|---|---|
| `KeyState.Initial` | main.cpp:69-73 | the table after construction has one slot per key code, and every key is up |
| `KeyState.Handle` | main.cpp:57-58 | a key event sets its own key's flag to `PressedDown`; every other slot keeps its value, and a non-key event changes no slot |
| `KeyState.HandleAll` | main.cpp:54-61 | replays a sequence of events through `OnEvent`'s update in arrival order; the table keeps one slot per key code |
| `KeyState.LastEventWins` | main.cpp:54-67 | after replaying events in arrival order, each key's flag is the `PressedDown` of the most recent key event for it, or its starting value if there was none |
| `KeyState.OtherKeysUntouched` | main.cpp:57-58 | a sequence of events that never names key k leaves k's flag as it was |
| `KeyState.LatestSurvivesOtherKeys` | main.cpp:57-58 | a key's latest flag is the one its last event gave it, whatever events for other keys or of other kinds arrived afterwards |
| `KeyState.PressThenRelease` | main.cpp:57-58 | after a press the key reads down; after a press followed by a release of the same key it reads up, whatever came before |
| `KeyState.OtherEventTransparent` | main.cpp:57 | appending a non-key event changes no key's latest flag |
| `EventReceiver.MyEventReceiver.constructor` | main.cpp:69-73 | the array has `keyCodesCount` slots, all false, and it equals the replay of an empty history |
| `EventReceiver.MyEventReceiver.OnEvent` | main.cpp:54-61 | the array becomes `Handle` of its old contents (one slot changes for a key event, none for any other event), the history grows by the event, the invariant is kept, and the result is always false |
| `EventReceiver.MyEventReceiver.IsKeyDown` | main.cpp:63-67 | returns the `PressedDown` flag of the latest key event for that code, or false if none arrived; being a function, it changes nothing |
| `EventReceiver.PressReleaseScenario` | main.cpp:54-73 | on a fresh receiver, a pressed key reads down even after a non-key event, then reads up after its release, and an untouched key reads up |
| `FrameLoop.RotationStep` | main.cpp:293-316 | pitch step is +1 if W is held, else −1 if S is held, else 0; yaw step is −1 if A is held, else +1 if D is held, else 0; a step has no roll component |
| `FrameLoop.OppositeKeysResolved` | main.cpp:293-316 | holding W with S is the same as W alone, and holding A with D is the same as A alone |
| `FrameLoop.Rotate` | main.cpp:293-316 | a zero step returns the rotation as it was, without calling the helper; a nonzero step returns a value that the helper produced |
| `FrameLoop.PitchBeforeYaw` | main.cpp:293-316 | a frame's step is the pitch-only step followed by the yaw-only step, each through the helper |
| `FrameLoop.NoKeysNoChange` | main.cpp:290-321 | with no movement key held, the rotation is unchanged whatever the helper does |
| `FrameLoop.RotateAddsStep` | main.cpp:293-316 | with a helper that changes nothing, the new rotation is the old one plus the step on pitch and yaw, with the roll kept |
| `FrameLoop.RollOnlyFromHelper` | main.cpp:290-321 | if the helper keeps the roll, the frame keeps the roll: key handling never edits Z |
| `FrameLoop.HeldFor` | main.cpp:284-321 | the rotation after k iterations of the frame loop with the same step; with no movement key held it stays as it was for any k |
| `FrameLoop.HeldKeysAccumulate` | main.cpp:284-321 | with a helper that changes nothing, holding the same keys for k frames moves pitch and yaw by k steps and keeps the roll |
| `FrameLoop.FrameUpdate` | main.cpp:290-321 | the loop body returns the position unchanged; the rotation equals `Rotate` of the step that `RotationStep` picks from the polled keys; the camera target is the node position exactly when L is held |
| `FrameLoop.PressedKeyTurns` | main.cpp:293-295 | if the last event naming W was a press, the frame's pitch step is +1, whatever events for other keys or of other kinds came after it |

## Left out

- Creating the device and window, the caption, the GUI text, the terrain node, the triangle selector, the mesh node, the FPS camera and the draw calls (main.cpp:106-174, 252-266, 332-342). These are engine calls.
- The body of `players::rotiraj` (players.h:8). It is not part of this model; it appears only as an arbitrary function parameter, and nothing is claimed about the range of its result.
- The `players::player` class (players.h:10-29). It holds engine pointers and strings, and its constructor and `setBody` are not part of this model.
- The timer and `frameDeltaTime` (main.cpp:281-289). They are computed and never used.
- The ray and `normalize()` vector arithmetic (main.cpp:336-338), and floating-point rounding in general. Vectors are `real`.
- The engine's `camera->setTarget` itself (main.cpp:317-318). `FrameUpdate` returns the target it would be given.
- The engine's dispatch of events to the receiver, and the loop's `device->run()` condition. `FrameUpdate` models one iteration, and `HeldFor` models a number of iterations.
- The commented-out blocks (for example main.cpp:143-147, 178-235, 297-300).
