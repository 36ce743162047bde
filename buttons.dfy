/**
 * The button registry and key-event queue of the firmware's hardware layer.
 *
 * The firmware keeps two process-wide vectors: the registered buttons, one
 * record per GPIO pin, and a FIFO of key events. `tick` turns every released
 * button into a pressed one and queues one event per such button; `get_data`
 * ticks, then hands out the front event once it is older than the debounce
 * interval, OR-ing into it the ids of the events of the same state that
 * immediately follow it and dropping all of them from the queue.
 *
 * Here the two vectors are the `seq` fields of `ButtonRegistry`; each method
 * is proved against a specification function on sequences, and the lemmas
 * state what those functions promise.
 */
module Buttons {

  datatype Option<T> = None | Some(value: T)

  /** A GPIO pin number, `uint8_t` in the firmware. */
  newtype Pin = x: int | 0 <= x < 0x100

  /** A key id: a `uint32_t` whose bits the queue ORs together. */
  type KeyId = bv32

  /** One registered button; a new button starts released (`last_state == false`). */
  datatype Button = Button(pin: Pin, id: KeyId, lastState: bool)

  /** One queued key event; `timestamp` is in milliseconds since boot. */
  datatype KeyEvent = KeyEvent(id: KeyId, state: bool, timestamp: int)

  /** What `get_data` returns when no event is ready. */
  const NoEvent := KeyEvent(0, false, 0)

  /** An event is handed out only once it is strictly older than this many milliseconds. */
  const DebounceMs := 100

  // ---------------------------------------------------------------------
  // The button list

  /** No two registered buttons share a pin. */
  ghost predicate UniquePins(bs: seq<Button>) {
    forall i, j :: 0 <= i < j < |bs| ==> bs[i].pin != bs[j].pin
  }

  /** The position of the first button registered on `pin`, if there is one. */
  function FindPin(bs: seq<Button>, pin: Pin): (r: Option<nat>)
    ensures r.Some? ==> r.value < |bs| && bs[r.value].pin == pin
    ensures r.Some? ==> forall j :: 0 <= j < r.value ==> bs[j].pin != pin
    ensures r.None? <==> forall j :: 0 <= j < |bs| ==> bs[j].pin != pin
  {
    if |bs| == 0 then None
    else if bs[0].pin == pin then Some(0)
    else match FindPin(bs[1..], pin)
      case None => None
      case Some(k) => Some(k + 1)
  }

  /** The button list after `add(pin, id)`. */
  function Added(bs: seq<Button>, pin: Pin, id: KeyId): seq<Button> {
    match FindPin(bs, pin)
    case Some(k) => bs[k := bs[k].(id := id)]
    case None => bs + [Button(pin, id, false)]
  }

  /** The button list after `remove(pin)`: every button on another pin, in order. */
  function Removed(bs: seq<Button>, pin: Pin): seq<Button> {
    if bs == [] then []
    else (if bs[0].pin == pin then [] else [bs[0]]) + Removed(bs[1..], pin)
  }

  /** The button list after `tick`: every button pressed. */
  function Ticked(bs: seq<Button>): seq<Button> {
    seq(|bs|, j requires 0 <= j < |bs| => bs[j].(lastState := true))
  }

  /** The events `tick` queues at time `nowMs`: one press per released button, in list order. */
  function TickEvents(bs: seq<Button>, nowMs: int): seq<KeyEvent> {
    if bs == [] then []
    else (if bs[0].lastState then [] else [KeyEvent(bs[0].id, true, nowMs)])
         + TickEvents(bs[1..], nowMs)
  }

  lemma AddedExisting(bs: seq<Button>, pin: Pin, id: KeyId)
    requires UniquePins(bs)
    requires FindPin(bs, pin).Some?
    ensures |Added(bs, pin, id)| == |bs|
    ensures forall j :: 0 <= j < |bs| ==>
      Added(bs, pin, id)[j] == if bs[j].pin == pin then bs[j].(id := id) else bs[j]
  {
  }

  lemma AddedFresh(bs: seq<Button>, pin: Pin, id: KeyId)
    requires FindPin(bs, pin).None?
    ensures Added(bs, pin, id) == bs + [Button(pin, id, false)]
  {
  }

  lemma AddedKeepsUniquePins(bs: seq<Button>, pin: Pin, id: KeyId)
    requires UniquePins(bs)
    ensures UniquePins(Added(bs, pin, id))
    ensures FindPin(Added(bs, pin, id), pin).Some?
  {
    var r := Added(bs, pin, id);
    match FindPin(bs, pin)
    case Some(k) =>
      assert forall j :: 0 <= j < |bs| ==> r[j].pin == bs[j].pin;
      assert r[k].pin == pin;
    case None =>
      assert forall j :: 0 <= j < |bs| ==> r[j] == bs[j];
      assert r[|bs|].pin == pin;
  }

  lemma {:induction false} RemovedConcat(a: seq<Button>, b: seq<Button>, pin: Pin)
    ensures Removed(a + b, pin) == Removed(a, pin) + Removed(b, pin)
  {
    if a == [] {
      assert a + b == b;
    } else {
      assert (a + b)[1..] == a[1..] + b;
      RemovedConcat(a[1..], b, pin);
    }
  }

  lemma {:induction false} RemovedAbsent(bs: seq<Button>, pin: Pin)
    requires FindPin(bs, pin).None?
    ensures Removed(bs, pin) == bs
  {
    if bs != [] {
      assert FindPin(bs[1..], pin).None?;
      RemovedAbsent(bs[1..], pin);
    }
  }

  lemma {:induction false} RemovedContents(bs: seq<Button>, pin: Pin)
    ensures forall b :: b in Removed(bs, pin) <==> b in bs && b.pin != pin
  {
    if bs != [] {
      RemovedContents(bs[1..], pin);
      assert bs == [bs[0]] + bs[1..];
    }
  }

  /** With unique pins, nothing before or after the registered button is on its pin. */
  lemma PinOnlyAt(bs: seq<Button>, pin: Pin)
    requires UniquePins(bs)
    requires FindPin(bs, pin).Some?
    ensures FindPin(bs[..FindPin(bs, pin).value], pin).None?
    ensures FindPin(bs[FindPin(bs, pin).value + 1..], pin).None?
  {
    var k := FindPin(bs, pin).value;
    var before, after := bs[..k], bs[k + 1..];
    assert forall j :: 0 <= j < |before| ==> before[j].pin != pin;
    forall j | 0 <= j < |after| ensures after[j].pin != pin {
      assert after[j] == bs[k + 1 + j];
    }
  }

  /** Removing the pin of the only button on it cuts that one button out. */
  lemma RemovedOnly(bs: seq<Button>, k: nat, pin: Pin)
    requires k < |bs| && bs[k].pin == pin
    requires FindPin(bs[..k], pin).None? && FindPin(bs[k + 1..], pin).None?
    ensures Removed(bs, pin) == bs[..k] + bs[k + 1..]
  {
    var before, after := bs[..k], bs[k + 1..];
    assert bs == before + ([bs[k]] + after);
    RemovedConcat(before, [bs[k]] + after, pin);
    RemovedConcat([bs[k]], after, pin);
    RemovedAbsent(before, pin);
    RemovedAbsent(after, pin);
  }

  lemma RemovedRegistered(bs: seq<Button>, pin: Pin)
    requires UniquePins(bs)
    requires FindPin(bs, pin).Some?
    ensures Removed(bs, pin) == bs[..FindPin(bs, pin).value] + bs[FindPin(bs, pin).value + 1..]
  {
    PinOnlyAt(bs, pin);
    RemovedOnly(bs, FindPin(bs, pin).value, pin);
  }

  lemma {:induction false} RemovedKeepsUniquePins(bs: seq<Button>, pin: Pin)
    requires UniquePins(bs)
    ensures UniquePins(Removed(bs, pin))
    ensures FindPin(Removed(bs, pin), pin).None?
  {
    RemovedContents(bs, pin);
    if FindPin(bs, pin).Some? {
      RemovedRegistered(bs, pin);
    } else {
      RemovedAbsent(bs, pin);
    }
  }

  lemma RemoveUndoesAdd(bs: seq<Button>, pin: Pin, id: KeyId)
    requires FindPin(bs, pin).None?
    ensures Removed(Added(bs, pin, id), pin) == bs
  {
    RemovedConcat(bs, [Button(pin, id, false)], pin);
    RemovedAbsent(bs, pin);
  }

  lemma {:induction false} TickEventsConcat(a: seq<Button>, b: seq<Button>, nowMs: int)
    ensures TickEvents(a + b, nowMs) == TickEvents(a, nowMs) + TickEvents(b, nowMs)
  {
    if a == [] {
      assert a + b == b;
    } else {
      assert (a + b)[1..] == a[1..] + b;
      TickEventsConcat(a[1..], b, nowMs);
    }
  }

  /** The `last_state` of each button, in list order. */
  function LastStates(bs: seq<Button>): seq<bool> {
    seq(|bs|, j requires 0 <= j < |bs| => bs[j].lastState)
  }

  /** How many buttons are released. */
  function ReleasedCount(bs: seq<Button>): nat {
    multiset(LastStates(bs))[false]
  }

  lemma {:induction false} TickEventsShape(bs: seq<Button>, nowMs: int)
    ensures |TickEvents(bs, nowMs)| == ReleasedCount(bs)
    ensures forall e :: e in TickEvents(bs, nowMs) ==>
      e.state && e.timestamp == nowMs && exists b :: b in bs && !b.lastState && b.id == e.id
    ensures forall j :: 0 <= j < |bs| && !bs[j].lastState ==>
      KeyEvent(bs[j].id, true, nowMs) in TickEvents(bs, nowMs)
  {
    if bs != [] {
      TickEventsShape(bs[1..], nowMs);
      assert bs == [bs[0]] + bs[1..];
      assert LastStates(bs) == [bs[0].lastState] + LastStates(bs[1..]);
      forall j | 1 <= j < |bs| && !bs[j].lastState
        ensures KeyEvent(bs[j].id, true, nowMs) in TickEvents(bs, nowMs)
      {
        assert bs[1..][j - 1] == bs[j];
      }
    }
  }

  lemma {:induction false} TickIdempotent(bs: seq<Button>, nowMs: int)
    ensures Ticked(Ticked(bs)) == Ticked(bs)
    ensures TickEvents(Ticked(bs), nowMs) == []
  {
    if bs != [] {
      assert Ticked(bs)[1..] == Ticked(bs[1..]);
      TickIdempotent(bs[1..], nowMs);
    }
  }

  lemma TickedKeepsPins(bs: seq<Button>)
    ensures |Ticked(bs)| == |bs|
    ensures forall j :: 0 <= j < |bs| ==>
      Ticked(bs)[j].pin == bs[j].pin && Ticked(bs)[j].id == bs[j].id && Ticked(bs)[j].lastState
    ensures UniquePins(bs) ==> UniquePins(Ticked(bs))
  {
  }

  // ---------------------------------------------------------------------
  // The key-event queue

  /** Every queued event is a press: `tick` is the only producer, and it queues presses. */
  ghost predicate AllPresses(q: seq<KeyEvent>) {
    forall k :: 0 <= k < |q| ==> q[k].state
  }

  /** The length of the longest prefix of `q` whose events all have state `s`. */
  function SameStateRun(q: seq<KeyEvent>, s: bool): (r: nat)
    ensures r <= |q|
    ensures forall k :: 0 <= k < r ==> q[k].state == s
    ensures r < |q| ==> q[r].state != s
  {
    if q == [] || q[0].state != s then 0 else 1 + SameStateRun(q[1..], s)
  }

  /** The ensures of `SameStateRun` pin its value down. */
  lemma SameStateRunUnique(q: seq<KeyEvent>, s: bool, n: nat)
    requires n <= |q|
    requires forall k :: 0 <= k < n ==> q[k].state == s
    requires n < |q| ==> q[n].state != s
    ensures SameStateRun(q, s) == n
  {
  }

  /** The bitwise OR of the ids of `q`, accumulated front to back. */
  function OrIds(q: seq<KeyEvent>): KeyId {
    if q == [] then 0 else OrIds(q[..|q| - 1]) | q[|q| - 1].id
  }

  /** Whether the front event is old enough to be handed out at `nowMs`. */
  predicate Ready(q: seq<KeyEvent>, nowMs: int) {
    |q| > 0 && nowMs - q[0].timestamp > DebounceMs
  }

  /** How many events `get_data` consumes: the front one and the run of same-state events after it. */
  function RunLength(q: seq<KeyEvent>): (n: nat)
    requires |q| > 0
    ensures 1 <= n <= |q|
  {
    1 + SameStateRun(q[1..], q[0].state)
  }

  /** The event `get_data` hands out for a ready queue. */
  function Coalesced(q: seq<KeyEvent>): KeyEvent
    requires |q| > 0
  {
    KeyEvent(OrIds(q[..RunLength(q)]), q[0].state, q[0].timestamp)
  }

  /** Every bit set in `x` is set in `mask`. */
  predicate BitsWithin(x: KeyId, mask: KeyId) {
    x & !mask == 0
  }

  /** `mask` covers every bit of `a | b` exactly when it covers every bit of `a` and of `b`. */
  lemma OrCovered(a: KeyId, b: KeyId, mask: KeyId)
    ensures BitsWithin(a | b, mask) <==> BitsWithin(a, mask) && BitsWithin(b, mask)
  {
    assert BitsWithin(a | b, mask) ==> BitsWithin(a, mask) && BitsWithin(b, mask);
    assert BitsWithin(a, mask) && BitsWithin(b, mask) ==> BitsWithin(a | b, mask);
  }

  /** Every id in `q` has its bits within `mask`. */
  ghost predicate IdsWithin(q: seq<KeyEvent>, mask: KeyId) {
    forall k :: 0 <= k < |q| ==> BitsWithin(q[k].id, mask)
  }

  lemma IdsWithinSnoc(p: seq<KeyEvent>, last: KeyEvent, mask: KeyId)
    ensures IdsWithin(p + [last], mask) <==> IdsWithin(p, mask) && BitsWithin(last.id, mask)
  {
    var q := p + [last];
    if IdsWithin(q, mask) {
      assert forall k :: 0 <= k < |p| ==> q[k] == p[k];
      assert q[|p|] == last;
    }
  }

  /** `OrIds(q)` is the least bit set containing every id of `q`. */
  lemma {:induction false} OrIdsCovers(q: seq<KeyEvent>, mask: KeyId)
    ensures BitsWithin(OrIds(q), mask) <==> IdsWithin(q, mask)
  {
    if q == [] {
      assert OrIds(q) == 0;
    } else {
      var p, last := q[..|q| - 1], q[|q| - 1];
      assert OrIds(q) == OrIds(p) | last.id;
      OrIdsCovers(p, mask);
      OrCovered(OrIds(p), last.id, mask);
      assert q == p + [last];
      IdsWithinSnoc(p, last, mask);
      assert IdsWithin(q, mask) == (IdsWithin(p, mask) && BitsWithin(last.id, mask));
    }
  }

  lemma RunIsMaximal(q: seq<KeyEvent>)
    requires |q| > 0
    ensures forall k :: 0 <= k < RunLength(q) ==> q[k].state == q[0].state
    ensures RunLength(q) < |q| ==> q[RunLength(q)].state != q[0].state
  {
  }

  lemma CoalescedMeaning(q: seq<KeyEvent>, mask: KeyId)
    requires |q| > 0
    ensures Coalesced(q).state == q[0].state && Coalesced(q).timestamp == q[0].timestamp
    ensures BitsWithin(Coalesced(q).id, mask) <==> IdsWithin(q[..RunLength(q)], mask)
  {
    OrIdsCovers(q[..RunLength(q)], mask);
  }

  lemma {:induction false} CoalescedHasEveryId(q: seq<KeyEvent>, k: nat)
    requires k < |q|
    requires forall j :: 0 <= j <= k ==> q[j].state == q[0].state
    ensures k < RunLength(q)
    ensures BitsWithin(q[k].id, Coalesced(q).id)
  {
    var n := RunLength(q);
    var c := q[..n];
    OrIdsCovers(c, OrIds(c));
    assert c[k] == q[k];
  }

  lemma CoalescingDrainsPresses(q: seq<KeyEvent>)
    requires |q| > 0 && AllPresses(q)
    ensures RunLength(q) == |q|
    ensures Coalesced(q).state
  {
  }

  // ---------------------------------------------------------------------
  // The registry: the two process-wide vectors

  class ButtonRegistry {
    var buttons: seq<Button>
    var keyEvents: seq<KeyEvent>

    ghost predicate Valid()
      reads this
    {
      UniquePins(buttons) && AllPresses(keyEvents)
    }

    /** Both vectors start empty. */
    constructor ()
      ensures Valid()
      ensures buttons == [] && keyEvents == []
    {
      buttons := [];
      keyEvents := [];
    }

    /** `add`: re-key the button already on `pin`, or register a new released one. */
    method Add(pin: Pin, id: KeyId)
      requires Valid()
      modifies this
      ensures Valid()
      ensures buttons == Added(old(buttons), pin, id)
      ensures keyEvents == old(keyEvents)
    {
      AddedKeepsUniquePins(buttons, pin, id);
      var i := 0;
      while i < |buttons|
        invariant 0 <= i <= |buttons|
        invariant buttons == old(buttons)
        invariant forall j :: 0 <= j < i ==> buttons[j].pin != pin
      {
        if buttons[i].pin == pin {
          buttons := buttons[i := buttons[i].(id := id)];
          return;
        }
        i := i + 1;
      }
      buttons := buttons + [Button(pin, id, false)];
    }

    /** `remove`: drop every button on `pin`, keeping the others in order. */
    method Remove(pin: Pin)
      requires Valid()
      modifies this
      ensures Valid()
      ensures buttons == Removed(old(buttons), pin)
      ensures keyEvents == old(keyEvents)
    {
      var bs := buttons;
      var kept: seq<Button> := [];
      var i := 0;
      while i < |bs|
        invariant 0 <= i <= |bs|
        invariant kept == Removed(bs[..i], pin)
        invariant unchanged(this)
      {
        assert bs[..i + 1] == bs[..i] + [bs[i]];
        assert Removed([bs[i]], pin) == if bs[i].pin == pin then [] else [bs[i]] by {
          assert [bs[i]][1..] == [];
        }
        RemovedConcat(bs[..i], [bs[i]], pin);
        if bs[i].pin != pin {
          kept := kept + [bs[i]];
        }
        i := i + 1;
      }
      assert bs[..i] == bs;
      RemovedKeepsUniquePins(bs, pin);
      buttons := kept;
    }

    /** `tick`: press every released button and queue one press event for each, stamped `nowMs`. */
    method Tick(nowMs: int)
      requires Valid()
      modifies this
      ensures Valid()
      ensures buttons == Ticked(old(buttons))
      ensures keyEvents == old(keyEvents) + TickEvents(old(buttons), nowMs)
    {
      ghost var bs := buttons;
      var i := 0;
      while i < |buttons|
        invariant 0 <= i <= |buttons| == |bs|
        invariant forall j :: 0 <= j < i ==> buttons[j] == bs[j].(lastState := true)
        invariant forall j :: i <= j < |bs| ==> buttons[j] == bs[j]
        invariant keyEvents == old(keyEvents) + TickEvents(bs[..i], nowMs)
      {
        assert bs[..i + 1] == bs[..i] + [bs[i]];
        TickEventsConcat(bs[..i], [bs[i]], nowMs);
        if !buttons[i].lastState {
          buttons := buttons[i := buttons[i].(lastState := true)];
          keyEvents := keyEvents + [KeyEvent(buttons[i].id, buttons[i].lastState, nowMs)];
        }
        i := i + 1;
      }
      assert bs[..i] == bs;
      TickedKeepsPins(bs);
      TickEventsShape(bs, nowMs);
    }

    /**
     * `get_data`: tick, then, when the front event is older than `DebounceMs`,
     * hand it out with the ids of the same-state run behind it OR-ed in and
     * drop that run; otherwise hand out `NoEvent` and keep the queue.
     */
    method GetData(nowMs: int) returns (data: KeyEvent)
      requires Valid()
      modifies this
      ensures Valid()
      ensures buttons == Ticked(old(buttons))
      ensures var q := old(keyEvents) + TickEvents(old(buttons), nowMs);
        if Ready(q, nowMs) then data == Coalesced(q) && keyEvents == q[RunLength(q)..]
        else data == NoEvent && keyEvents == q
    {
      Tick(nowMs);
      data := NoEvent;
      if |keyEvents| > 0 && nowMs - keyEvents[0].timestamp > DebounceMs {
        ghost var q, ticked := keyEvents, buttons;
        var sameState := 1;
        data := keyEvents[0];
        while sameState < |keyEvents| && keyEvents[sameState].state == data.state
          invariant 1 <= sameState <= |q|
          invariant keyEvents == q && buttons == ticked
          invariant forall k :: 1 <= k < sameState ==> q[k].state == q[0].state
          invariant data == KeyEvent(OrIds(q[..sameState]), q[0].state, q[0].timestamp)
        {
          assert q[..sameState + 1][..sameState] == q[..sameState];
          data := data.(id := data.id | keyEvents[sameState].id);
          sameState := sameState + 1;
        }
        SameStateRunUnique(q[1..], q[0].state, sameState - 1);
        keyEvents := keyEvents[sameState..];
      }
    }
  }
}
