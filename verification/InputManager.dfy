/** The input manager as an object: the fields its entry points update and the queue its other thread takes, each method
    shown to be one action of the specification. */
module InputManagers {
  import opened MachineInts
  import opened Wrappers
  import opened InputQueue
  import opened PointerButtons

  class InputManager {
    var pressedButtons: set<nat>
    var queue: seq<Event>
    var delayed: seq<u32>  // what the detached threads have captured
    var lastPressMs: u32
    var hasLastLocal: bool
    var lastLocalX: int
    var lastLocalY: int
    ghost var client: Client

    ghost predicate Valid()
      reads this
    {
      pressedButtons <= {0, 1, 2}
    }

    ghost function Abs(): State
      reads this
    {
      State(pressedButtons, queue, delayed, lastPressMs,
            if hasLastLocal then Some((lastLocalX, lastLocalY)) else None, client)
    }

    constructor ()
      ensures Valid() && Abs() == START
    {
      pressedButtons, queue, delayed, lastPressMs := {}, [], [], 0;
      hasLastLocal, lastLocalX, lastLocalY, client := false, 0, 0, NOBODY;
    }

    method Enqueue(ev: Event)
      modifies this`queue
      ensures queue == old(queue) + [ev]
    {
      queue := queue + [ev];
    }

    method EnqueueAll(events: seq<Event>)
      modifies this`queue
      ensures queue == old(queue) + events
    {
      queue := queue + events;
    }

    /** A press: focus, position, the button, then the keyboard focus that follows the click. */
    method SendPress(button: u32, x: int, y: int, pointerFocus: seq<Event>, keyboardFocus: seq<Event>, now: u32)
      requires Valid() && PointerFocus(pointerFocus) && KeyEvents(keyboardFocus)
      modifies this
      ensures Valid() && Abs() == After(old(Abs()), Press(button, x, y, pointerFocus, keyboardFocus, now))
    {
      EnqueueAll(pointerFocus);
      Enqueue(PtrMotion(x, y));
      if button != 0 {
        var bit := ButtonToBit(button);
        if bit < 32 {
          pressedButtons := pressedButtons + {bit};
        }
        lastPressMs := now;
        Enqueue(PtrButton(button, PRESSED));
      }
      EnqueueAll(keyboardFocus);
    }

    /** A release, of the lowest held button if the argument names none; soon after a press it is left to a thread. */
    method SendRelease(button: u32, now: u32)
      requires Valid()
      modifies this
      ensures Valid() && Abs() == After(old(Abs()), Release(button, now))
    {
      var bit := ButtonToBit(button);
      var releaseBtn := button;
      if bit >= 32 && pressedButtons != {} {
        var b := 0;
        while b < 3
          invariant 0 <= b <= 3
          invariant pressedButtons == old(pressedButtons) && releaseBtn == button
          invariant forall c | 0 <= c < b :: c !in pressedButtons
        {
          if b in pressedButtons {
            releaseBtn := BitToButton(b);
            pressedButtons := pressedButtons - {b};
            break;
          }
          b := b + 1;
        }
        assert b == 3 ==> pressedButtons == {};
      } else if bit in pressedButtons {
        pressedButtons := pressedButtons - {bit};
      }
      var quick := (now - lastPressMs) % 0x1_0000_0000;
      if releaseBtn != 0 && quick < MIN_PRESS_MS {
        delayed := delayed + [releaseBtn];
      } else if releaseBtn != 0 {
        Enqueue(PtrButton(releaseBtn, RELEASED));
      }
    }

    /** A sleeping thread wakes up. */
    method ReleaseLate(k: nat)
      requires Valid() && k < |delayed|
      modifies this
      ensures Valid() && Abs() == After(old(Abs()), DelayEnds(k))
    {
      Enqueue(PtrButton(delayed[k], RELEASED));
      delayed := delayed[..k] + delayed[k + 1..];
    }

    /** A move: the increment if a client wants it, then focus and position. */
    method SendMove(x: int, y: int, relative: bool, pointerFocus: seq<Event>)
      requires Valid() && PointerFocus(pointerFocus)
      modifies this
      ensures Valid() && Abs() == After(old(Abs()), Move(x, y, relative, pointerFocus))
    {
      if hasLastLocal {
        var dx, dy := x - lastLocalX, y - lastLocalY;
        if (dx != 0 || dy != 0) && relative {
          Enqueue(RelMotion(dx, dy));
        }
      }
      lastLocalX, lastLocalY, hasLastLocal := x, y, true;
      EnqueueAll(pointerFocus);
      Enqueue(PtrMotion(x, y));
    }

    /** A move during an interactive move: the position alone. */
    method SendGrabMotion(x: int, y: int)
      requires Valid()
      modifies this
      ensures Valid() && Abs() == After(old(Abs()), Grab(x, y))
    {
      Enqueue(PtrMotion(x, y));
    }

    method SendScroll(axis: int, value: int, pointerFocus: seq<Event>)
      requires Valid() && PointerFocus(pointerFocus)
      modifies this
      ensures Valid() && Abs() == After(old(Abs()), Scroll(axis, value, pointerFocus))
    {
      EnqueueAll(pointerFocus);
      Enqueue(PtrAxis(axis, value));
      assert old(queue) + pointerFocus + [PtrAxis(axis, value)] == old(queue) + (pointerFocus + [PtrAxis(axis, value)]);
    }

    method SendKeys(events: seq<Event>)
      requires Valid() && KeyEvents(events)
      modifies this
      ensures Valid() && Abs() == After(old(Abs()), Keys(events))
    {
      EnqueueAll(events);
    }

    /** Takes the whole queue, merges it and sends what is left. */
    method FlushQueue() returns (sent: seq<Event>)
      requires Valid()
      modifies this
      ensures Valid() && Abs() == After(old(Abs()), Flush) && sent == Merge(old(queue))
    {
      var batch := queue;
      queue := [];
      sent := MergeBatch(batch);
      client := ReceiveAll(client, sent);
    }
  }
}
