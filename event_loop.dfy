/** The pure behaviour of the keypress program's main loop: which slot a key
    selects, what draining one event queue does to the quit flag and the
    selection, and which states the outer loop displays. */
module EventLoop {
  import opened SurfaceTable

  /** The key symbol of a key-down event; every key but the four arrows is `OtherKey`,
      so `sym` ranges over the symbols of the non-arrow keys only. */
  datatype Key = ArrowUp | ArrowDown | ArrowLeft | ArrowRight | OtherKey(sym: int)

  /** The events the loop distinguishes: a quit request, a key press, anything else. */
  datatype Event = Quit | KeyDown(key: Key) | Other

  /** The loop's state: the `quit` flag and the slot the current surface was taken from. */
  datatype LoopState = LoopState(quit: bool, selection: Slot)

  /** The state in which the outer loop starts: not quitting, the Default slot shown. */
  const Start := LoopState(false, Default)

  /** The `switch` on the key symbol: each arrow selects its own slot, every other key the Default slot. */
  function SlotFor(k: Key): (s: Slot)
    ensures s == Up <==> k == ArrowUp
    ensures s == Down <==> k == ArrowDown
    ensures s == Left <==> k == ArrowLeft
    ensures s == Right <==> k == ArrowRight
    ensures s == Default <==> k.OtherKey?
  {
    match k
    case ArrowUp => Up
    case ArrowDown => Down
    case ArrowLeft => Left
    case ArrowRight => Right
    case OtherKey(_) => Default
  }

  /** Handling one polled event: the flag is latched and set only by a quit request, and
      only a key press moves the selection. */
  function Step(st: LoopState, e: Event): (r: LoopState)
    ensures st.quit ==> r.quit
    ensures r.quit ==> st.quit || e == Quit
    ensures r.selection == st.selection || e.KeyDown?
  {
    match e
    case Quit => st.(quit := true)
    case KeyDown(k) => st.(selection := SlotFor(k))
    case Other => st
  }

  /** Polling a queue until it is empty, handling its events front to back. The flag is
      never reset, and the selection is either the one before the drain or the slot of
      some key pressed in the queue. */
  function Drain(queue: seq<Event>, st: LoopState): (r: LoopState)
    ensures st.quit ==> r.quit
    ensures r.selection == st.selection ||
            exists j :: 0 <= j < |queue| && queue[j].KeyDown? && r.selection == SlotFor(queue[j].key)
    decreases |queue|
  {
    if queue == [] then st else Drain(queue[1..], Step(st, queue[0]))
  }

  /** Draining two queues one after the other is draining their concatenation. */
  lemma {:induction false} DrainAppend(a: seq<Event>, b: seq<Event>, st: LoopState)
    ensures Drain(a + b, st) == Drain(b, Drain(a, st))
    decreases |a|
  {
    if a == [] {
      assert a + b == b;
    } else {
      assert (a + b)[0] == a[0];
      assert (a + b)[1..] == a[1..] + b;
      DrainAppend(a[1..], b, Step(st, a[0]));
    }
  }

  /** After a drain the flag is set exactly when it was set before or the queue held a quit request:
      the flag is latched and never reset, whatever follows the quit request. */
  lemma {:induction false} DrainQuit(queue: seq<Event>, st: LoopState)
    ensures Drain(queue, st).quit <==> st.quit || exists j :: 0 <= j < |queue| && queue[j] == Quit
    decreases |queue|
  {
    if queue != [] {
      var next := Step(st, queue[0]);
      DrainQuit(queue[1..], next);
      assert next.quit <==> st.quit || queue[0] == Quit;
      if exists j :: 0 <= j < |queue| && queue[j] == Quit {
        var j :| 0 <= j < |queue| && queue[j] == Quit;
        if j > 0 {
          assert queue[1..][j - 1] == Quit;
        }
      }
      if exists j :: 0 <= j < |queue[1..]| && queue[1..][j] == Quit {
        var j :| 0 <= j < |queue[1..]| && queue[1..][j] == Quit;
        assert queue[j + 1] == Quit;
      }
    }
  }

  /** A queue without key presses leaves the selection as it was: quit requests and other events never change it. */
  lemma {:induction false} DrainWithoutKeysKeepsSelection(queue: seq<Event>, st: LoopState)
    requires forall j :: 0 <= j < |queue| ==> !queue[j].KeyDown?
    ensures Drain(queue, st).selection == st.selection
    decreases |queue|
  {
    if queue != [] {
      assert !queue[0].KeyDown?;
      assert forall j :: 0 <= j < |queue[1..]| ==> queue[1..][j] == queue[j + 1];
      DrainWithoutKeysKeepsSelection(queue[1..], Step(st, queue[0]));
    }
  }

  /** After a drain the selection is the mapping of the last key press in the queue. */
  lemma {:induction false} DrainSelectsLastKey(queue: seq<Event>, st: LoopState, i: nat)
    requires i < |queue| && queue[i].KeyDown?
    requires forall j :: i < j < |queue| ==> !queue[j].KeyDown?
    ensures Drain(queue, st).selection == SlotFor(queue[i].key)
    decreases |queue|
  {
    assert forall j :: 0 <= j < |queue[1..]| ==> queue[1..][j] == queue[j + 1];
    if i == 0 {
      DrainWithoutKeysKeepsSelection(queue[1..], Step(st, queue[0]));
    } else {
      DrainSelectsLastKey(queue[1..], Step(st, queue[0]), i - 1);
    }
  }

  /** A quit request does not end the drain: the last key pressed after it in the same queue
      still selects its slot, and the flag stays set. */
  lemma KeyAfterQuitStillSelects(queue: seq<Event>, st: LoopState, q: nat, i: nat)
    requires q < i < |queue| && queue[q] == Quit && queue[i].KeyDown?
    requires forall m :: i < m < |queue| ==> !queue[m].KeyDown?
    ensures Drain(queue, st) == LoopState(true, SlotFor(queue[i].key))
  {
    DrainQuit(queue, st);
    DrainSelectsLastKey(queue, st, i);
  }

  /** The states the outer loop blits, one per iteration, given the queue drained in each iteration:
      the loop tests the flag before each iteration, drains, then blits and presents. */
  function Session(frames: seq<seq<Event>>, st: LoopState): (shown: seq<LoopState>)
    ensures |shown| <= |frames|
    ensures !st.quit && frames != [] ==> |shown| >= 1
    decreases |frames|
  {
    if st.quit || frames == [] then []
    else
      var next := Drain(frames[0], st);
      [next] + Session(frames[1..], next)
  }

  /** One iteration of the outer loop, taken from the remaining queues. */
  lemma SessionUnfold(frames: seq<seq<Event>>, i: nat, st: LoopState)
    requires i < |frames| && !st.quit
    ensures Session(frames[i..], st) == [Drain(frames[i], st)] + Session(frames[i + 1..], Drain(frames[i], st))
  {
    assert frames[i..][1..] == frames[i + 1..];
  }

  /** One more iteration of the outer loop extends the states displayed so far and leaves
      the remaining queues to be drained from the new state. */
  lemma SessionAdvance(frames: seq<seq<Event>>, i: nat, shown: seq<LoopState>, before: LoopState, after: LoopState)
    requires i < |frames| && !before.quit && after == Drain(frames[i], before)
    requires shown + Session(frames[i..], before) == Session(frames, Start)
    ensures (shown + [after]) + Session(frames[i + 1..], after) == Session(frames, Start)
  {
    SessionUnfold(frames, i, before);
    var rest := Session(frames[i + 1..], after);
    assert [after] + rest == Session(frames[i..], before);
    assert (shown + [after]) + rest == shown + ([after] + rest);
  }

  /** Every iteration but the last is displayed with the flag clear, and the loop stops early only
      because the last displayed state has the flag set: the iteration that sets it still blits. */
  lemma {:induction false} SessionStopsAtQuit(frames: seq<seq<Event>>, st: LoopState)
    requires !st.quit
    ensures var shown := Session(frames, st);
      (forall k :: 0 <= k < |shown| - 1 ==> !shown[k].quit) &&
      (|shown| < |frames| ==> shown[|shown| - 1].quit)
    decreases |frames|
  {
    if frames != [] {
      var next := Drain(frames[0], st);
      if !next.quit {
        SessionStopsAtQuit(frames[1..], next);
      }
    }
  }

  /** All the events the session has drained, in order. */
  function Concat(frames: seq<seq<Event>>): seq<Event>
    decreases |frames|
  {
    if frames == [] then [] else frames[0] + Concat(frames[1..])
  }

  /** The state displayed by iteration `k` is the drain of every event delivered up to and including
      that iteration: splitting the stream into per-iteration queues changes nothing. */
  lemma {:induction false} SessionIsOneDrain(frames: seq<seq<Event>>, st: LoopState, k: nat)
    requires k < |Session(frames, st)|
    ensures Session(frames, st)[k] == Drain(Concat(frames[..k + 1]), st)
    decreases k
  {
    var next := Drain(frames[0], st);
    assert Session(frames, st) == [next] + Session(frames[1..], next);
    if k == 0 {
      assert frames[..1] == [frames[0]];
      assert Concat([frames[0]]) == frames[0] + Concat([]);
      assert frames[0] + [] == frames[0];
    } else {
      SessionIsOneDrain(frames[1..], next, k - 1);
      assert frames[..k + 1] == [frames[0]] + frames[1..][..k];
      assert Concat([frames[0]] + frames[1..][..k]) == frames[0] + Concat(frames[1..][..k]) by {
        assert ([frames[0]] + frames[1..][..k])[1..] == frames[1..][..k];
      }
      DrainAppend(frames[0], Concat(frames[1..][..k]), st);
    }
  }

  /** From the start state, the state displayed by iteration `k` has the flag set exactly when
      some quit request has been delivered so far; it shows the Default slot while no key has
      been pressed, and afterwards the slot of the last key pressed so far. */
  lemma SessionShowsDeliveredEvents(frames: seq<seq<Event>>, k: nat)
    requires k < |Session(frames, Start)|
    ensures var delivered := Concat(frames[..k + 1]);
      var shown := Session(frames, Start)[k];
      (shown.quit <==> exists j :: 0 <= j < |delivered| && delivered[j] == Quit) &&
      ((forall j :: 0 <= j < |delivered| ==> !delivered[j].KeyDown?) ==> shown.selection == Default) &&
      (forall i :: (0 <= i < |delivered| && delivered[i].KeyDown? &&
                    (forall j :: i < j < |delivered| ==> !delivered[j].KeyDown?))
                   ==> shown.selection == SlotFor(delivered[i].key))
  {
    var delivered := Concat(frames[..k + 1]);
    SessionIsOneDrain(frames, Start, k);
    DrainQuit(delivered, Start);
    if forall j :: 0 <= j < |delivered| ==> !delivered[j].KeyDown? {
      DrainWithoutKeysKeepsSelection(delivered, Start);
    }
    forall i | 0 <= i < |delivered| && delivered[i].KeyDown? &&
               (forall j :: i < j < |delivered| ==> !delivered[j].KeyDown?)
      ensures Drain(delivered, Start).selection == SlotFor(delivered[i].key)
    {
      DrainSelectsLastKey(delivered, Start, i);
    }
  }

  /** The run in which Up, Left, the key `z` and a quit request arrive one per iteration blits
      the Up, Left, Default and Default slots and then stops. */
  lemma ArrowsThenQuitScenario()
    ensures Session([[KeyDown(ArrowUp)], [KeyDown(ArrowLeft)], [KeyDown(OtherKey(122))], [Quit]], Start)
         == [LoopState(false, Up), LoopState(false, Left), LoopState(false, Default), LoopState(true, Default)]
  {
  }
}
