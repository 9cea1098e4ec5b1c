/** The ring of key events, and the on-screen display that takes the keyboard over only when the guest's queue is
    idle. */
module KeyQueue {
  import opened Keyboard

  /** What the hardware shows at a call: the guest has not acknowledged yet, and the time for it is over. */
  datatype Status = Status(busy: bool, expired: bool)

  /** The cell of event number `j`. */
  function Cell(j: nat): (c: nat)
    ensures c < QUEUE
  {
    j % QUEUE
  }

  lemma CellNext(j: nat)
    ensures Cell(j + 1) == (Cell(j) + 1) % QUEUE
  {
  }

  /** Fewer than 128 events in a row have cells of their own. */
  lemma CellApart(i: nat, j: nat)
    requires i < j < i + QUEUE
    ensures Cell(i) != Cell(j)
  {
  }

  /** The ring is found full exactly when 127 events are pending, and empty exactly when none is. */
  lemma CellsMeet(i: nat, j: nat)
    requires i <= j < i + QUEUE
    ensures Cell(i) == Cell(j) <==> i == j
    ensures (Cell(j) + 1) % QUEUE == Cell(i) <==> j == i + QUEUE - 1
  {
    CellNext(j);
    if i < j {
      CellApart(i, j);
    }
    if j + 1 < i + QUEUE {
      CellApart(i, j + 1);
    } else {
      assert Cell(i + QUEUE) == Cell(i);
    }
  }

  class Queue {
    const ring: array<Event>
    const held: array<bv32>
    var head: nat
    var tail: nat
    var waiting: bool
    var overflows: nat
    /** Key events taken into the queue, how many of them are done with, and what was written to the guest. */
    ghost var accepted: seq<Event>
    ghost var retired: nat
    ghost var written: seq<Event>
    ghost var bypassed: seq<Event>
    /** Keys held, by all arrivals, accepted or not. */
    ghost var down: set<nat>

    /** The ring holds what is pending; an event in flight is the first of it. */
    ghost predicate Linked()
      reads this, ring, held
    {
      && ring.Length == QUEUE && held.Length == 4 && Holds(held[..], down)
      && retired <= |accepted| < retired + QUEUE
      && head == Cell(|accepted|) && tail == Cell(retired)
      && (forall j :: retired <= j < |accepted| ==> ring[Cell(j)] == accepted[j])
      && (waiting ==> retired < |accepted|)
      && written == accepted[..if waiting then retired + 1 else retired]
    }

    /** ... and something is in flight whenever anything is pending. */
    ghost predicate Valid()
      reads this, ring, held
    {
      Linked() && (waiting <==> retired < |accepted|)
    }

    constructor ()
      ensures Valid() && accepted == [] && bypassed == [] && down == {} && overflows == 0
      ensures fresh(ring) && fresh(held)
    {
      ring := new Event[QUEUE](_ => 0);
      held := new bv32[4](_ => 0);
      head, tail, waiting, overflows := 0, 0, false, 0;
      accepted, retired, written, bypassed, down := [], 0, [], [], {};
      new;
      NoKeys(held[..]);
    }

    /** Whether the event in flight keeps the queue waiting. */
    predicate Stalled(s: Status)
      reads this`waiting
    {
      waiting && s.busy && !s.expired
    }

    /** Every event taken in is done with, and no key is held. */
    ghost predicate AllDone()
      reads this`retired, this`accepted, this`down
    {
      retired == |accepted| && down == {}
    }

    /** Neither acknowledged nor out of time. */
    lemma StalledTells(s: Status)
      ensures Stalled(s) <==> waiting && s.busy && !s.expired
      ensures AllDone() <==> retired == |accepted| && down == {}
    {
    }

    /** KeyboardService: an acknowledged or expired head is done with, and the next one goes out. */
    method Service(s: Status)
      requires Linked()
      modifies this`tail, this`waiting, this`retired, this`written
      ensures Valid()
      ensures retired == old(retired) + if old(waiting) && !old(Stalled(s)) then 1 else 0
    {
      hide Holds(), Cell();
      CellNext(retired);
      if waiting {
        if s.busy && !s.expired {
          return;
        }
        tail := (tail + 1) % QUEUE;
        waiting := false;
        retired := retired + 1;
      }
      CellsMeet(retired, |accepted|);
      if tail != head {
        written := written + [ring[tail]];
        waiting := true;
      }
    }

    /** KeyboardSend: refuses only a key event that finds 127 events pending and the one in flight stalled. */
    method Send(event: Event, s: Status) returns (ok: bool)
      requires Valid()
      modifies this, ring, held
      ensures Valid()
      ensures !ok <==> IsKey(event) && old(Stalled(s)) && old(|accepted| - retired) == 127
      ensures accepted == if ok && IsKey(event) then old(accepted) + [event] else old(accepted)
      ensures bypassed == if IsKey(event) then old(bypassed) else old(bypassed) + [event]
      ensures overflows == old(overflows) + if ok then 0 else 1
      ensures down == if IsKey(event) then After(old(down), event) else old(down)
      ensures retired == old(retired) + if IsKey(event) && old(waiting) && !old(Stalled(s)) then 1 else 0
    {
      hide Holds(), Cell(), IsKey();
      if !IsKey(event) {
        bypassed := bypassed + [event];
        return true;
      }
      Arrive(event);
      Service(s);
      CellsMeet(retired, |accepted|);
      var next := (head + 1) % QUEUE;
      if next == tail {
        overflows := overflows + 1;
        return false;
      }
      Append(event, next);
      if !waiting {
        Service(s);
      }
      return true;
    }

    /** Notes a key that went down or up. */
    method Arrive(event: Event)
      requires Valid()
      modifies this`down, held
      ensures Valid() && down == After(old(down), event)
    {
      hide Bit(), Mask(), With(), Without(), Holds();
      MarkedHolds(held[..], down, event);
      var key := KeyOf(event);
      ghost var words := held[..];
      if IsRelease(event) {
        held[key / 32] := Without(held[key / 32], Mask(key % 32));
      } else {
        held[key / 32] := With(held[key / 32], Mask(key % 32));
      }
      assert held[..] == Marked(words, event);
      down := After(down, event);
    }

    method Append(event: Event, next: nat)
      requires Valid() && next == (head + 1) % QUEUE && next != tail
      modifies this`head, this`accepted, ring
      ensures Linked() && accepted == old(accepted) + [event]
    {
      hide Holds(), Cell();
      ghost var n := |accepted|;
      CellsMeet(retired, n);
      CellNext(n);
      forall j | retired <= j < n ensures Cell(j) != Cell(n) {
        CellApart(j, n);
      }
      ring[head] := event;
      head := next;
      accepted := accepted + [event];
      assert written == accepted[..if waiting then retired + 1 else retired];
    }

    /** KeyboardIdle: nothing pending, nothing in flight, no key held. */
    method Idle(s: Status) returns (idle: bool)
      requires Valid()
      modifies this`tail, this`waiting, this`retired, this`written
      ensures Valid()
      ensures retired == old(retired) + if old(waiting) && !old(Stalled(s)) then 1 else 0
      ensures idle <==> AllDone()
    {
      hide Holds(), All(), Empty(), Cell();
      Service(s);
      CellsMeet(retired, |accepted|);
      NoneHeld(held[..], down);
      idle := head == tail && !waiting && Empty(All(held[0], held[1], held[2], held[3]));
    }

    /** KeyboardKeyDown. */
    method KeyDown(key: nat) returns (b: bool)
      requires Valid() && key < 256
      ensures b <==> key % 128 in down
    {
      hide Bit();
      b := Bit(held[key % 128 / 32], key % 128 % 32);
    }
  }

  // ---------------------------------------------------------------- handover to the on-screen display

  /** DISABLE_KEYBOARD. */
  const CAPTURE: nat := 2

  predicate Captures(mode: nat) {
    mode / CAPTURE % 2 == 1
  }

  /** The second bit from below asks for the keyboard. */
  lemma CaptureBit(mode: nat, high: nat, capture: nat, low: nat)
    requires capture < 2 && low < 2 && mode == 4 * high + 2 * capture + low
    ensures Captures(mode) <==> capture == 1
  {
  }

  class Osd {
    const queue: Queue
    var capturePending: bool
    var captured: bool
    var visible: bool
    /** Enable commands sent to the display: bit 0 shows it, bit 1 takes the keyboard. */
    ghost var commands: seq<nat>

    /** The flags say what the last command said; no capture is pending while one is in force. */
    ghost predicate Valid()
      reads this
    {
      && !(capturePending && captured) && (captured ==> visible)
      && (visible || captured ==> commands != [])
      && (commands != [] ==> commands[|commands| - 1] == (if visible then 1 else 0) + (if captured then CAPTURE else 0))
    }

    constructor (queue: Queue)
      ensures Valid() && this.queue == queue && !capturePending && !captured && !visible && commands == []
    {
      this.queue := queue;
      capturePending, captured, visible, commands := false, false, false, [];
    }

    /** Whether a status lets the event in flight be retired. */
    ghost predicate Retires(s: Status)
      reads this, queue`waiting
    {
      queue.waiting && !queue.Stalled(s)
    }

    /** OsdPoll: a pending capture happens as soon as the queue is idle, in the same step as the check. */
    method Poll(s: Status) returns (ready: bool)
      requires Valid() && queue.Valid()
      modifies this`capturePending, this`captured, this`visible, this`commands
      modifies queue`tail, queue`waiting, queue`retired, queue`written
      ensures Valid() && queue.Valid()
      ensures queue.retired == old(queue.retired) + if old(capturePending && Retires(s)) then 1 else 0
      ensures ready <==> !old(capturePending) || queue.AllDone()
      ensures captured == (old(captured) || (old(capturePending) && queue.AllDone()))
      ensures capturePending == (old(capturePending) && !queue.AllDone())
      ensures visible == (old(visible) || captured)
      ensures commands == if captured && !old(captured) then old(commands) + [3] else old(commands)
    {
      if !capturePending {
        return true;
      }
      ready := queue.Idle(s);
      if ready {
        commands := commands + [1 + CAPTURE];
        capturePending, captured, visible := false, true, true;
      }
    }

    /** OsdShow: with the capture bit the display is captured, or shown by a later poll; without, it appears at once. */
    method Show(mode: nat, s: Status)
      requires Valid() && queue.Valid()
      modifies this`capturePending, this`captured, this`visible, this`commands
      modifies queue`tail, queue`waiting, queue`retired, queue`written
      ensures Valid() && queue.Valid()
      ensures queue.retired == old(queue.retired) + if Captures(mode) && old(!captured && Retires(s)) then 1 else 0
      ensures captured == (Captures(mode) && (old(captured) || queue.AllDone()))
      ensures capturePending == (Captures(mode) && !captured)
      ensures visible == (old(visible) || captured || !Captures(mode))
      ensures commands == old(commands) + if capturePending then [] else if Captures(mode) then [3] else [1]
    {
      if Captures(mode) && !captured {
        capturePending := true;
        var ready := Poll(s);
        return;
      }
      capturePending := false;
      commands := commands + [1 + if Captures(mode) then CAPTURE else 0];
      visible := true;
      captured := Captures(mode);
    }

    /** OsdHide. */
    method Hide()
      requires Valid()
      modifies this`capturePending, this`captured, this`visible, this`commands
      ensures Valid() && !capturePending && !captured && !visible && commands == old(commands) + [0]
    {
      capturePending := false;
      commands := commands + [0];
      visible, captured := false, false;
    }
  }

  lemma NoKeys(words: seq<bv32>)
    requires |words| == 4 && forall i :: 0 <= i < 4 ==> words[i] == 0
    ensures Holds(words, {})
  {
    forall i | 0 <= i < 4 ensures forall k: nat :: k < 32 ==> !Bit(words[i], k) {
      NoBits(words[i]);
    }
  }
}
