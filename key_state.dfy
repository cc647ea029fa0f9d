/**
 The key-down table kept by the demo's event receiver, as values.

 A table holds one flag per engine key code (its length stands for the
 engine's KEY_KEY_CODES_COUNT). Only key-input events touch it; every other
 kind of engine event leaves it alone. The class in EventReceiver keeps an
 array whose contents always equal the table described here.
 */
module KeyState {

  /** An engine event as the receiver sees it: a key transition carrying the
      key code and its PressedDown flag, or any other kind of event (mouse,
      GUI, joystick, log, user), whose contents the receiver never reads. */
  datatype Event = KeyInput(key: nat, pressedDown: bool) | OtherEvent

  /** The event can be applied to a table of n flags: a key event's code
      indexes a slot that exists. */
  predicate Fits(e: Event, n: nat) {
    e.KeyInput? ==> e.key < n
  }

  predicate AllFit(events: seq<Event>, n: nat) {
    forall i :: 0 <= i < |events| ==> Fits(events[i], n)
  }

  /** The table right after construction: every key is up. */
  function Initial(n: nat): (t: seq<bool>)
    ensures |t| == n
    ensures forall k :: 0 <= k < n ==> !t[k]
  {
    seq(n, _ => false)
  }

  /** The table after one event: a key event overwrites its own slot with
      the PressedDown flag; every other slot, and every slot for any other
      kind of event, keeps its value. */
  function Handle(t: seq<bool>, e: Event): (r: seq<bool>)
    requires Fits(e, |t|)
    ensures |r| == |t|
    ensures e.KeyInput? ==> r[e.key] == e.pressedDown
    ensures forall j :: 0 <= j < |t| && !(e.KeyInput? && j == e.key) ==> r[j] == t[j]
  {
    match e
    case KeyInput(k, down) => t[k := down]
    case OtherEvent => t
  }

  /** The table after a sequence of events, applied in arrival order. */
  function HandleAll(t: seq<bool>, events: seq<Event>): (r: seq<bool>)
    requires AllFit(events, |t|)
    ensures |r| == |t|
    decreases |events|
  {
    if events == [] then t
    else
      var last := events[|events| - 1];
      Handle(HandleAll(t, events[..|events| - 1]), last)
  }

  /** The PressedDown flag of the most recent key event for key k in events,
      or dflt when no key event for k occurs. */
  function LatestFlag(events: seq<Event>, k: nat, dflt: bool): bool
    decreases |events|
  {
    if events == [] then dflt
    else
      var last := events[|events| - 1];
      if last.KeyInput? && last.key == k then last.pressedDown
      else LatestFlag(events[..|events| - 1], k, dflt)
  }

  /** Appending one event to the history applies exactly that event to the
      table reached so far. */
  lemma HandleAllSnoc(t: seq<bool>, events: seq<Event>, e: Event)
    requires AllFit(events, |t|) && Fits(e, |t|)
    ensures AllFit(events + [e], |t|)
    ensures HandleAll(t, events + [e]) == Handle(HandleAll(t, events), e)
  {
  }

  /** Last event wins: for every key, the replayed table holds the flag of
      the most recent key event for that key, and the starting flag when
      there was none. */
  lemma {:induction false} LastEventWins(t: seq<bool>, events: seq<Event>, k: nat)
    requires AllFit(events, |t|)
    requires k < |t|
    ensures HandleAll(t, events)[k] == LatestFlag(events, k, t[k])
    decreases |events|
  {
    if events != [] {
      var prefix := events[..|events| - 1];
      assert AllFit(prefix, |t|) by {
        forall i | 0 <= i < |prefix| ensures Fits(prefix[i], |t|) {
          assert prefix[i] == events[i];
        }
      }
      LastEventWins(t, prefix, k);
    }
  }

  /** Events for other keys, and events of other kinds, never change key k's
      flag. */
  lemma {:induction false} OtherKeysUntouched(t: seq<bool>, events: seq<Event>, k: nat)
    requires AllFit(events, |t|)
    requires k < |t|
    requires forall i :: 0 <= i < |events| ==> !(events[i].KeyInput? && events[i].key == k)
    ensures HandleAll(t, events)[k] == t[k]
    decreases |events|
  {
    if events != [] {
      var prefix := events[..|events| - 1];
      assert AllFit(prefix, |t|) by {
        forall i | 0 <= i < |prefix| ensures Fits(prefix[i], |t|) {
          assert prefix[i] == events[i];
        }
      }
      assert forall i :: 0 <= i < |prefix| ==> prefix[i] == events[i];
      OtherKeysUntouched(t, prefix, k);
    }
  }

  /** A key's latest flag is the one its last event gave it, however many
      events for other keys, or of other kinds, arrived afterwards. */
  lemma {:induction false} LatestSurvivesOtherKeys(before: seq<Event>, k: nat, down: bool,
                                                   since: seq<Event>, dflt: bool)
    requires forall i :: 0 <= i < |since| ==> !(since[i].KeyInput? && since[i].key == k)
    ensures LatestFlag(before + [KeyInput(k, down)] + since, k, dflt) == down
    decreases |since|
  {
    var events := before + [KeyInput(k, down)] + since;
    if since != [] {
      var prefix := since[..|since| - 1];
      assert events[..|events| - 1] == before + [KeyInput(k, down)] + prefix;
      assert events[|events| - 1] == since[|since| - 1];
      LatestSurvivesOtherKeys(before, k, down, prefix, dflt);
    }
  }

  /** A press followed by a release of the same key leaves it up, whatever
      came before. */
  lemma PressThenRelease(history: seq<Event>, k: nat, dflt: bool)
    ensures !LatestFlag(history + [KeyInput(k, true), KeyInput(k, false)], k, dflt)
    ensures LatestFlag(history + [KeyInput(k, true)], k, dflt)
  {
  }

  /** An event of another kind is transparent: the latest flag of every key
      is the one it had before that event arrived. */
  lemma OtherEventTransparent(history: seq<Event>, k: nat, dflt: bool)
    ensures LatestFlag(history + [OtherEvent], k, dflt) == LatestFlag(history, k, dflt)
  {
  }
}
