/**
 The demo's event receiver: a fixed-size table of key-down flags that the
 engine fills by calling OnEvent and that the frame loop polls through
 IsKeyDown.
 */
module EventReceiver {
  import opened KeyState

  class MyEventReceiver {
    /** One flag per engine key code; its length stands for
        KEY_KEY_CODES_COUNT. */
    const keyIsDown: array<bool>
    /** Every event delivered so far, oldest first. */
    ghost var history: seq<Event>

    /** The array holds the table obtained by replaying the history from an
        all-up table. */
    ghost predicate Valid()
      reads this, keyIsDown
    {
      AllFit(history, keyIsDown.Length) &&
      keyIsDown[..] == HandleAll(Initial(keyIsDown.Length), history)
    }

    /** Sets every flag to false, one slot at a time. */
    constructor (keyCodesCount: nat)
      ensures Valid() && fresh(keyIsDown)
      ensures keyIsDown.Length == keyCodesCount
      ensures history == []
      ensures forall k :: 0 <= k < keyCodesCount ==> !keyIsDown[k]
    {
      keyIsDown := new bool[keyCodesCount];
      history := [];
      new;
      var i := 0;
      while i < keyCodesCount
        invariant 0 <= i <= keyCodesCount
        invariant forall k :: 0 <= k < i ==> !keyIsDown[k]
        modifies keyIsDown
      {
        keyIsDown[i] := false;
        i := i + 1;
      }
      assert keyIsDown[..] == Initial(keyCodesCount);
    }

    /** Records a key event's PressedDown flag in that key's slot, ignores
        every other kind of event, and never consumes the event. The key code
        must name a slot: the array is indexed without a check. */
    method OnEvent(event: Event) returns (consumed: bool)
      requires Valid()
      requires Fits(event, keyIsDown.Length)
      modifies this, keyIsDown
      ensures Valid()
      ensures history == old(history) + [event]
      ensures keyIsDown[..] == Handle(old(keyIsDown[..]), event)
      ensures !consumed
    {
      HandleAllSnoc(Initial(keyIsDown.Length), history, event);
      if event.KeyInput? {
        keyIsDown[event.key] := event.pressedDown;
      }
      history := history + [event];
      consumed := false;
    }

    /** Whether the key is held: the PressedDown flag of the most recent key
        event for it, and false if none has arrived since construction. */
    function IsKeyDown(keyCode: nat): (down: bool)
      reads this, keyIsDown
      requires Valid()
      requires keyCode < keyIsDown.Length
      ensures down == LatestFlag(history, keyCode, false)
    {
      LastEventWins(Initial(keyIsDown.Length), history, keyCode);
      keyIsDown[keyCode]
    }
  }

  /** A key pressed and then released reads as up, an event of another kind
      in between changes nothing, and a key nobody touched reads as up. */
  method PressReleaseScenario(keyCodesCount: nat, key: nat, untouched: nat)
    returns (afterPress: bool, afterRelease: bool, neverTouched: bool)
    requires key < keyCodesCount && untouched < keyCodesCount && untouched != key
    ensures afterPress && !afterRelease && !neverTouched
  {
    var receiver := new MyEventReceiver(keyCodesCount);
    var consumed := receiver.OnEvent(KeyInput(key, true));
    consumed := receiver.OnEvent(OtherEvent);
    afterPress := receiver.IsKeyDown(key);
    consumed := receiver.OnEvent(KeyInput(key, false));
    afterRelease := receiver.IsKeyDown(key);
    neverTouched := receiver.IsKeyDown(untouched);
  }
}
