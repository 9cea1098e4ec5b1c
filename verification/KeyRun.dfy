/** Whole runs of the keyboard queue and the display, against a machine without ring, bitmap or cache of flags. */
module KeyRun {
  import opened Keyboard
  import opened KeyQueue

  datatype Step =
    | Arrival(event: Event, s: Status)
    | Service(s: Status)
    | Poll(s: Status)
    | Show(mode: nat, s: Status)
    | Hide

  /** Key events taken in, how many of them are done with, other events, key events refused, keys held, and the
      display. */
  datatype Machine = Machine(accepted: seq<Event>, retired: nat, bypassed: seq<Event>, refused: nat, down: set<nat>,
                             pending: bool, captured: bool, visible: bool, commands: seq<nat>)
  {
    predicate Possible() {
      retired <= |accepted| < retired + QUEUE
    }

    predicate Idle() {
      retired == |accepted| && down == {}
    }

    /** What was written to the guest: everything done with, and the event in flight. */
    function Written(): seq<Event>
      requires Possible()
    {
      accepted[..if retired < |accepted| then retired + 1 else retired]
    }

    /** The event in flight, if any, is done with unless the guest may still acknowledge it. */
    function Serviced(s: Status): (m: Machine)
      requires Possible()
      ensures m.Possible()
    {
      if retired < |accepted| && !Waits(s) then this.(retired := retired + 1) else this
    }

    function Tried(s: Status): (m: Machine)
      requires Possible()
      ensures m.Possible()
    {
      var m := Serviced(s);
      if m.Idle() then m.(pending := false, captured := true, visible := true, commands := commands + [1 + CAPTURE])
      else m.(pending := true)
    }
  }

  predicate Waits(s: Status) {
    s.busy && !s.expired
  }

  /** A key event is refused: it finds 127 events pending and the one in flight unacknowledged. */
  predicate Refused(m: Machine, step: Step) {
    step.Arrival? && IsKey(step.event) && |m.accepted| - m.retired == QUEUE - 1 && Waits(step.s)
  }

  /** What a step leads to. */
  function Next(m: Machine, step: Step): (n: Machine)
    requires m.Possible()
    ensures n.Possible()
  {
    match step
    case Arrival(event, s) =>
      if !IsKey(event) then m.(bypassed := m.bypassed + [event])
      else
        var n := m.Serviced(s).(down := After(m.down, event));
        if Refused(m, step) then n.(refused := m.refused + 1) else n.(accepted := m.accepted + [event])
    case Service(s) => m.Serviced(s)
    case Poll(s) => if m.pending then m.Tried(s) else m
    case Show(mode, s) =>
      if !Captures(mode) then m.(pending := false, captured := false, visible := true, commands := m.commands + [1])
      else if m.captured then m.(pending := false, visible := true, commands := m.commands + [1 + CAPTURE])
      else m.Tried(s)
    case Hide => m.(pending := false, captured := false, visible := false, commands := m.commands + [0])
  }

  /** What its caller is told. */
  predicate Answer(m: Machine, step: Step)
    requires m.Possible()
  {
    match step
    case Arrival(_, _) => !Refused(m, step)
    case Poll(_) => !Next(m, step).pending
    case _ => true
  }

  function Outcome(m: Machine, steps: seq<Step>): (n: Machine)
    requires m.Possible()
    ensures n.Possible()
  {
    if steps == [] then m else Next(Outcome(m, steps[..|steps| - 1]), steps[|steps| - 1])
  }

  // ---------------------------------------------------------------- the code follows the machine

  /** The machine a queue and a display stand for. */
  ghost function Seen(queue: Queue, osd: Osd): (m: Machine)
    reads queue, osd
  {
    Machine(queue.accepted, queue.retired, queue.bypassed, queue.overflows, queue.down,
            osd.capturePending, osd.captured, osd.visible, osd.commands)
  }

  lemma SeenPossible(queue: Queue, osd: Osd)
    requires queue.Valid() && osd.Valid()
    ensures osd.captured ==> osd.visible && !osd.capturePending
    ensures Seen(queue, osd).Possible() && queue.written == Seen(queue, osd).Written()
    ensures queue.waiting <==> queue.retired < |queue.accepted|
  {
  }

  method Perform(queue: Queue, osd: Osd, step: Step) returns (answer: bool)
    requires queue.Valid() && osd.Valid() && osd.queue == queue
    modifies queue, queue.ring, queue.held, osd
    ensures queue.Valid() && osd.Valid() && old(Seen(queue, osd)).Possible()
    ensures Seen(queue, osd) == Next(old(Seen(queue, osd)), step) && answer == Answer(old(Seen(queue, osd)), step)
  {
    hide Queue.Linked, Osd.Valid, IsKey, After, Captures;
    SeenPossible(queue, osd);
    answer := true;
    match step {
      case Arrival(event, s) =>
        answer := queue.Send(event, s);
      case Service(s) =>
        queue.Service(s);
      case Poll(s) =>
        answer := osd.Poll(s);
      case Show(mode, s) =>
        osd.Show(mode, s);
      case Hide =>
        osd.Hide();
    }
    SeenPossible(queue, osd);
  }

  /** Every interleaving of arrivals, service and display calls leaves the ring, the bitmap and the display where the
      machine is, gives its answers, and writes to the guest what it says. */
  method Run(queue: Queue, osd: Osd, steps: seq<Step>) returns (answers: seq<bool>)
    requires queue.Valid() && osd.Valid() && osd.queue == queue
    modifies queue, queue.ring, queue.held, osd
    ensures queue.Valid() && osd.Valid() && old(Seen(queue, osd)).Possible()
    ensures Seen(queue, osd) == Outcome(old(Seen(queue, osd)), steps)
    ensures queue.written == Outcome(old(Seen(queue, osd)), steps).Written()
    ensures |answers| == |steps|
    ensures forall i :: 0 <= i < |steps| ==> answers[i] == Answer(Outcome(old(Seen(queue, osd)), steps[..i]), steps[i])
  {
    hide Queue.Valid, Osd.Valid, Next, Answer;
    SeenPossible(queue, osd);
    ghost var m := Seen(queue, osd);
    answers := [];
    for i := 0 to |steps|
      invariant queue.Valid() && osd.Valid() && Seen(queue, osd) == Outcome(m, steps[..i])
      invariant |answers| == i && forall k :: 0 <= k < i ==> answers[k] == Answer(Outcome(m, steps[..k]), steps[k])
    {
      assert steps[..i + 1][..i] == steps[..i];
      var answer := Perform(queue, osd, steps[i]);
      answers := answers + [answer];
    }
    assert steps[..|steps|] == steps;
    SeenPossible(queue, osd);
  }

  // ---------------------------------------------------------------- what holds of every run

  /** Key events of a run that were not refused, in order. */
  function Taken(m: Machine, steps: seq<Step>): seq<Event>
    requires m.Possible()
  {
    if steps == [] then [] else
      var n := |steps| - 1;
      var before, last := Taken(m, steps[..n]), steps[n];
      if last.Arrival? && IsKey(last.event) && !Refused(Outcome(m, steps[..n]), last) then before + [last.event]
      else before
  }

  function Refusals(m: Machine, steps: seq<Step>): nat
    requires m.Possible()
  {
    if steps == [] then 0 else
      var n := |steps| - 1;
      Refusals(m, steps[..n]) + if Refused(Outcome(m, steps[..n]), steps[n]) then 1 else 0
  }

  /** No key event is lost without being counted: the events that were not refused follow each other in the queue,
      what was written is the beginning of them, all but at most 126, and the last one written may still be in
      flight. */
  lemma {:induction false} NothingLost(m: Machine, steps: seq<Step>)
    requires m.Possible()
    ensures var n := Outcome(m, steps);
      && n.accepted == m.accepted + Taken(m, steps) && n.refused == m.refused + Refusals(m, steps)
      && n.Written() <= n.accepted && |n.accepted| - |n.Written()| <= 126 && m.Written() <= n.Written()
  {
    hide IsKey, Next, Refused, Machine.Written;
    var n := Outcome(m, steps);
    WrittenLaw(n);
    if steps != [] {
      var before := Outcome(m, steps[..|steps| - 1]);
      NothingLost(m, steps[..|steps| - 1]);
      TakenStep(before, steps[|steps| - 1]);
    }
  }

  lemma WrittenLaw(m: Machine)
    requires m.Possible()
    ensures m.Written() <= m.accepted && |m.accepted| - |m.Written()| <= 126
  {
  }

  lemma TakenStep(m: Machine, step: Step)
    requires m.Possible()
    ensures var n := Next(m, step);
      && n.accepted ==
        m.accepted + (if step.Arrival? && IsKey(step.event) && !Refused(m, step) then [step.event] else [])
      && n.refused == m.refused + (if Refused(m, step) then 1 else 0) && m.Written() <= n.Written()
  {
    hide IsKey, After, Machine.Written, Waits, Captures, Machine.Idle;
    assert m.retired <= Next(m, step).retired;
    WrittenGrows(m, Next(m, step));
  }

  lemma WrittenGrows(m: Machine, n: Machine)
    requires m.Possible() && n.Possible() && m.accepted <= n.accepted && m.retired <= n.retired
    ensures m.Written() <= n.Written()
  {
  }

  predicate Presses(step: Step, key: nat) {
    step.Arrival? && IsKey(step.event) && KeyOf(step.event) == key && !IsRelease(step.event)
  }

  predicate Releases(step: Step, key: nat) {
    step.Arrival? && IsKey(step.event) && KeyOf(step.event) == key && IsRelease(step.event)
  }

  predicate Unreleased(steps: seq<Step>, from: nat, key: nat) {
    forall k :: from <= k < |steps| ==> !Releases(steps[k], key)
  }

  /** Position `i` of a run pressed the key, and it was not released since. */
  predicate HeldSince(steps: seq<Step>, i: nat, key: nat) {
    i < |steps| && Presses(steps[i], key) && Unreleased(steps, i + 1, key)
  }

  /** A key counts as held exactly when it was pressed, or held before, and not released since; refused events count
      too. */
  lemma {:induction false} HeldKeys(m: Machine, steps: seq<Step>, key: nat)
    requires m.Possible()
    ensures key in Outcome(m, steps).down <==>
              (exists i: nat :: HeldSince(steps, i, key)) || (key in m.down && Unreleased(steps, 0, key))
  {
    hide IsKey, KeyOf, IsRelease;
    if steps != [] {
      var n := |steps| - 1;
      var before, last := steps[..n], steps[n];
      HeldKeys(m, before, key);
      assert Unreleased(steps, 0, key) <==> Unreleased(before, 0, key) && !Releases(last, key);
      forall i: nat | i < n ensures HeldSince(steps, i, key) <==> HeldSince(before, i, key) && !Releases(last, key) {
        assert Unreleased(steps, i + 1, key) <==> Unreleased(before, i + 1, key) && !Releases(last, key);
      }
      assert HeldSince(steps, n, key) <==> Presses(last, key);
      DownStep(Outcome(m, before), last, key);
    }
  }

  lemma DownStep(m: Machine, step: Step, key: nat)
    requires m.Possible()
    ensures key in Next(m, step).down <==> Presses(step, key) || (key in m.down && !Releases(step, key))
  {
  }

  predicate Asks(step: Step) {
    step.Show? && Captures(step.mode)
  }

  /** The display is hidden, or shown without the keyboard. */
  predicate Ends(step: Step) {
    step.Hide? || (step.Show? && !Captures(step.mode))
  }

  /** Capture was asked for at `j` and nothing ended it since. */
  predicate AskedSince(steps: seq<Step>, j: nat) {
    j < |steps| && Asks(steps[j]) && forall k :: j < k < |steps| ==> !Ends(steps[k])
  }

  /** Step `i` looked whether the queue is idle, and found every event done with and no key held. */
  predicate FoundIdle(m: Machine, steps: seq<Step>, i: nat)
    requires m.Possible()
  {
    i < |steps| && (steps[i].Poll? || Asks(steps[i])) && Outcome(m, steps[..i + 1]).Idle()
  }

  /** Capture is asked for at `j`, and a step from then on found the queue idle. */
  ghost predicate CapturedSince(m: Machine, steps: seq<Step>, j: nat)
    requires m.Possible()
  {
    AskedSince(steps, j) && exists i: nat :: j <= i && FoundIdle(m, steps, i)
  }

  /** The display has the keyboard exactly when it was asked to take it, was not told otherwise since, and one of its
      looks in between found every key event done with and no key held; it waits for the keyboard exactly when none
      did. */
  lemma {:induction false} CaptureLaw(m: Machine, steps: seq<Step>)
    requires m.Possible() && !m.pending && !m.captured
    ensures var n := Outcome(m, steps);
      && (n.captured <==> exists j: nat :: CapturedSince(m, steps, j))
      && (n.pending <==> !n.captured && exists j: nat :: AskedSince(steps, j))
  {
    hide Captures, Outcome;
    Unfold(m, steps);
    if steps != [] {
      var k := |steps| - 1;
      var before, last := steps[..k], steps[k];
      CaptureLaw(m, before);
      CaptureStep(Outcome(m, before), last);
      forall j: nat | j < k ensures AskedSince(steps, j) <==> AskedSince(before, j) && !Ends(last) {
      }
      forall i: nat | i < k ensures FoundIdle(m, steps, i) <==> FoundIdle(m, before, i) {
        assert steps[..i + 1] == before[..i + 1];
      }
      assert steps[..k + 1] == steps;
      assert AskedSince(steps, k) <==> Asks(last);
      forall j: nat | j < k ensures CapturedSince(m, steps, j) <==>
          !Ends(last) && (CapturedSince(m, before, j) || (AskedSince(before, j) && FoundIdle(m, steps, k))) {
        if CapturedSince(m, before, j) && !Ends(last) {
          var i: nat :| j <= i && FoundIdle(m, before, i);
          assert FoundIdle(m, steps, i);
        }
      }
      assert CapturedSince(m, steps, k) <==> Asks(last) && FoundIdle(m, steps, k);
      if n: nat :| CapturedSince(m, before, n) {
        assert !Ends(last) ==> CapturedSince(m, steps, n);
      }
      if n: nat :| AskedSince(before, n) {
        assert !Ends(last) ==> AskedSince(steps, n);
        assert !Ends(last) && FoundIdle(m, steps, k) ==> CapturedSince(m, steps, n);
      }
    }
  }

  lemma Unfold(m: Machine, steps: seq<Step>)
    requires m.Possible()
    ensures Outcome(m, steps) == if steps == [] then m else Next(Outcome(m, steps[..|steps| - 1]), steps[|steps| - 1])
  {
  }

  lemma CaptureStep(m: Machine, step: Step)
    requires m.Possible() && !(m.pending && m.captured)
    ensures var n := Next(m, step);
      && (n.captured <==> !Ends(step) && (m.captured || ((Asks(step) || (step.Poll? && m.pending)) && n.Idle())))
      && (n.pending <==> !Ends(step) && !n.captured && (m.pending || Asks(step)))
  {
  }

  /** The last command sent to the display says what it shows and whether it has the keyboard. */
  predicate Commanded(m: Machine) {
    && (forall i :: 0 <= i < |m.commands| ==> m.commands[i] in {0, 1, 3})
    && (m.visible <==> m.commands != [] && m.commands[|m.commands| - 1] != 0)
    && (m.captured <==> m.commands != [] && m.commands[|m.commands| - 1] == 3)
  }

  lemma {:induction false} CommandLaw(m: Machine, steps: seq<Step>)
    requires m.Possible() && Commanded(m)
    ensures Commanded(Outcome(m, steps)) && m.commands <= Outcome(m, steps).commands
  {
    hide Next, Commanded;
    if steps != [] {
      CommandLaw(m, steps[..|steps| - 1]);
      CommandStep(Outcome(m, steps[..|steps| - 1]), steps[|steps| - 1]);
    }
  }

  lemma CommandStep(m: Machine, step: Step)
    requires m.Possible() && Commanded(m)
    ensures Commanded(Next(m, step)) && m.commands <= Next(m, step).commands
  {
    hide Next;
    OneCommand(m, step);
  }

  /** A step sends at most one command, and shows or hides the display and takes or gives back the keyboard as that
      says. */
  lemma OneCommand(m: Machine, step: Step)
    requires m.Possible()
    ensures var n, c := Next(m, step), m.commands;
      || (n.commands == c && n.visible == m.visible && n.captured == m.captured)
      || (n.commands == c + [0] && !n.visible && !n.captured)
      || (n.commands == c + [1] && n.visible && !n.captured)
      || (n.commands == c + [3] && n.visible && n.captured)
  {
    hide IsKey, Captures, After, Waits, Machine.Idle;
  }

  // ---------------------------------------------------------------- progress

  /** Service steps that find the guest done, or out of time. */
  function Chances(steps: seq<Step>): nat {
    if steps == [] then 0 else
      var last := steps[|steps| - 1];
      Chances(steps[..|steps| - 1]) + if last.Service? && !Waits(last.s) then 1 else 0
  }

  /** Service alone retires one event at every chance until none is left. */
  lemma {:induction false} Drain(m: Machine, steps: seq<Step>)
    requires m.Possible() && forall i :: 0 <= i < |steps| ==> steps[i].Service?
    ensures var r := m.retired + Chances(steps);
      Outcome(m, steps) == m.(retired := if r < |m.accepted| then r else |m.accepted|)
  {
    if steps != [] {
      Drain(m, steps[..|steps| - 1]);
    }
  }

  /** A waiting capture comes about: with no key held, the first poll after as many chances as there are pending
      events. */
  lemma CaptureComes(m: Machine, steps: seq<Step>, s: Status)
    requires m.Possible() && m.pending && m.down == {}
    requires (forall i :: 0 <= i < |steps| ==> steps[i].Service?) && Chances(steps) >= |m.accepted| - m.retired
    ensures Outcome(m, steps + [Step.Poll(s)]).captured
  {
    Drain(m, steps);
    assert (steps + [Step.Poll(s)])[..|steps|] == steps;
  }
}
