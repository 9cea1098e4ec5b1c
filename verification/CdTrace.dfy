/** Runs of the CD drive as sequences of states, and what such a run delivers: every READ the data of one disc, every
    answer its page. */
module CdTrace {
  import opened Basics
  import opened Storage
  import opened CdLayout
  import opened CdTransfer
  import opened CdAnswers

  /** `Service` is one turn of HandleIDE: poll the transfer, and take a new command only when the drive
      is idle. */
  datatype Step =
    | Service(wantsData: bool, hasPacket: bool, state: nat, expired: bool, packet: seq<byte>,
              command: bool, tfr: seq<byte>, target: int, identity: seq<byte>)
    | MountDisc(unit: int, parse: Parse)
    | EjectDisc(unit: int)
    | TryImage(parse: Parse)
    | Attach(newUnit: nat)
    | Remove(unit: int, force: bool)
  {
    predicate Sized() {
      Service? ==> |packet| == 12 && |tfr| == 8
    }
  }

  /** The drive between two steps: its fields, the disc in it, the one that waits and whether the card works, what is
      still to be sent of an answer, and everything written to the guest. */
  datatype Shot = Shot(unit: int, phase: nat, generation: nat, limit: nat, attention: nat, loaded: bool, pending: bool,
    locked: bool, sense: (nat, nat, nat), current: nat, disc: Disc, waiting: Disc, healthy: bool, left: seq<byte>,
    output: seq<Event>, reading: bool, read: Progress)

  // ---------------------------------------------------------------- what one step does

  /** The guest is being served: the drive is busy, and the guest has not replaced or reset its command. */
  predicate Serving(s: Shot, step: Step) {
    step.Service? && s.phase != 0 && step.state == s.generation
  }

  /** A packet is taken that starts a READ: by the drive's own state, before the step. */
  predicate Accepts(s: Shot, step: Step)
    requires step.Sized()
  {
    Serving(s, step) && !step.expired && s.phase == 1 && step.hasPacket
    && ReadAccepted(step.packet, s.attention, s.loaded, s.disc.blocks)
  }

  /** A packet is taken. */
  predicate Taken(s: Shot, step: Step)
    requires step.Sized()
  {
    Serving(s, step) && !step.expired && s.phase == 1 && step.hasPacket && (s.loaded ==> s.disc.tracks != [])
  }

  function StandOf(s: Shot): Standing {
    Standing(s.attention, s.loaded, s.locked, s.sense)
  }

  /** What becomes of it. */
  function Fate(s: Shot, step: Step): Verdict
    requires step.Sized() && Taken(s, step)
  {
    Decide(step.packet, StandOf(s), s.disc.tracks, s.disc.blocks)
  }

  /** A packet that needs a disc is not turned away: what the guest is told then depends on the disc in the drive. */
  predicate Tells(s: Shot, step: Step)
    requires step.Sized()
  {
    && Taken(s, step) && NeedsDisc(step.packet[0]) && step.packet[1] / 32 == 0
    && !(Fate(s, step).Refused? && Fate(s, step).key in {2, 6})
  }

  /** The packet begins an answer. */
  predicate AnswerStarts(s: Shot, step: Step)
    requires step.Sized()
  {
    Taken(s, step) && Fate(s, step).Answers?
  }

  function First(step: Step): nat
    requires step.Service? && step.Sized()
  {
    Be32(step.packet[2], step.packet[3], step.packet[4], step.packet[5])
  }

  /** A disc comes into the drive. */
  predicate Enters(s: Shot, s': Shot) {
    s'.loaded && !(s.loaded && s'.current == s.current)
  }

  /** A unit attention is reported to the guest: sense key 6. */
  predicate Reports(e: seq<Event>, e': seq<Event>) {
    exists i :: |e| <= i < |e'| && e'[i].TaskFile? && e'[i].error == 16 * 6 + 4
  }

  /** The sense data stay, are cleared, say that a command was abandoned, or go with the error just reported. */
  predicate Sensed(s: Shot, s': Shot) {
    || s'.sense in {s.sense, (0, 0, 0), (0xb, 0x47, 0)}
    || ErrorLast(s.output, s'.output, s'.sense.0, HeadOf(s.unit))
  }

  predicate ErrorLast(e: seq<Event>, e': seq<Event>, key: nat, head: nat) {
    |e| + 2 <= |e'| && e'[|e'| - 2..] == ErrorEvents(key, head)
  }

  /** Attention, discs and output under any step. */
  ghost predicate Keeps(s: Shot, s': Shot) {
    && s.output <= s'.output && s'.phase < 3
    && (s.attention != 0 && s'.attention == 0 ==> Reports(s.output, s'.output) || !s'.loaded)
    && (Enters(s, s') ==> s'.attention != 0)
    && (s'.loaded && !Enters(s, s') ==> s'.disc == s.disc)
    && (s.pending && s'.pending ==> s'.waiting == s.waiting)
    && Sensed(s, s')
    && (s.phase != 0 && s'.phase == 2 ==> s'.disc == s.disc && s'.limit == s.limit && s'.unit == s.unit)
  }

  /** Another disc comes into the drive, behind a unit attention. */
  predicate Comes(s: Shot, s': Shot) {
    s'.current != s.current && !s'.pending && s'.attention != 0 && (s'.loaded <==> s'.disc.blocks > 0)
  }

  /** The waiting disc does, if there is one. */
  predicate Exchanged(s: Shot, s': Shot) {
    && !s'.pending
    && if s.pending then Comes(s, s') && s'.disc == s.waiting else s'.current == s.current && s'.loaded == s.loaded
  }

  /** Nothing about the media changes. */
  predicate SameMedia(s: Shot, s': Shot) {
    && s'.current == s.current && s'.pending == s.pending && s'.locked == s.locked && s'.loaded == s.loaded
    && s'.attention == s.attention && s'.disc == s.disc
  }

  /** A CUE sheet that has a layout over its files. */
  ghost predicate HasLayout(parse: Parse) {
    parse.valid && exists p :: Solution(parse.files, parse.tracks, p)
  }

  /** A new disc, or none, is laid ready; it comes in at once if the drive is idle. */
  predicate Laid(s: Shot, s': Shot) {
    && s'.locked == s.locked
    && if s.phase == 0 then Comes(s, s')
       else s'.pending && s'.current == s.current && s'.loaded == s.loaded && s'.attention == s.attention
            && s'.disc == s.disc
  }

  /** The disc laid ready. */
  function NewDisc(s: Shot, s': Shot): Disc {
    if s.phase == 0 then s'.disc else s'.waiting
  }

  /** The transfer is left alone. */
  predicate Still(s: Shot, s': Shot) {
    && s'.phase == s.phase && s'.generation == s.generation && s'.limit == s.limit && s'.output == s.output
    && s'.reading == s.reading && s'.read == s.read && s'.unit == s.unit && s'.left == s.left && s'.sense == s.sense
  }

  /** The card works and all blocks the READ asks for are good. */
  ghost predicate Readable(s: Shot, r: Progress) {
    s.healthy && s.disc.Valid() && s.disc.AllGood(r.first, r.count)
  }

  /** One data phase, or the end of a READ by a failure of the card or a bad block. */
  ghost predicate Moves(s: Shot, s': Shot) {
    && (s'.phase == 0 || s'.phase == 2)
    && (!s.reading ==>
          var n := Least(|s.left|, s.limit);
          && !s'.reading && 0 < n && s'.left == s.left[n..] && (s'.phase == 0 <==> n == |s.left|)
          && s'.output == s.output + DataPhase(s.left[..n], s'.phase == 0, HeadOf(s.unit)))
    && (s.reading && s'.read == s.read ==>
      s'.phase == 0 && !s'.reading && Adds(s.output, s'.output) && !Readable(s, s.read))
    && (s.reading && s'.read != s.read ==>
          && (s'.reading <==> s'.phase == 2)
          && PhaseSent(s.read, s'.read, s.output, s'.output, s'.phase == 0, HeadOf(s.unit))
          && (s'.phase == 0 ==> s.disc.Valid() && s.limit > 0 && Finished(s.disc, s.limit, s'.read)))
  }

  /** What a packet does: exactly what it is decided to. */
  predicate Dispatched(s: Shot, packet: seq<byte>, s': Shot)
    requires |packet| == 12
  {
    && s'.current == s.current && s'.pending == s.pending && s'.disc == s.disc && s'.limit == s.limit
    && s'.unit == s.unit && (s.loaded ==> s.disc.tracks != [])
    && var v := Decide(packet, StandOf(s), s.disc.tracks, s.disc.blocks);
      && s'.output == s.output + Seen(v, HeadOf(s.unit))
      && s'.phase == (if v.Answers? || v.Reads? then 2 else 0)
      && (s'.reading <==> v.Reads?) && (v.Reads? ==> s'.read == Progress(v.first, v.count, [], []))
      && s'.left == (if v.Answers? then v.bytes else [])
      && StandOf(s') == After(packet, StandOf(s), s.disc.tracks, s.disc.blocks)
  }

  /** One turn of service. */
  ghost predicate Serves(s: Shot, step: Step, s': Shot)
    requires step.Service? && step.Sized()
  {
    if !Serving(s, step) then
      && !s'.reading && (s'.phase == 0 || s'.phase == 1) && Exchanged(s, s')
      && s'.locked == (s.locked && !(s.phase != 0 && step.state / 64 % 2 == 1)
                       && !(step.command && step.target == s.unit && step.tfr[7] in {8, 0x90}))
      && (s'.phase == 1 <==> step.command && step.target == s.unit && PacketCommand(step.tfr))
      && (s'.phase == 1 ==> s'.generation == step.state && s'.limit == Limit(step.tfr[5], step.tfr[4]))
      && (if step.command && step.target == s.unit && step.tfr[7] == 0xa1
          then AddsOnly(s.output, s'.output, step.identity)
          else Adds(s.output, s'.output))
    else if step.expired then
      && s'.phase == 0 && !s'.reading && s'.output == s.output + ErrorEvents(0xb, HeadOf(s.unit))
      && s'.locked == s.locked && Exchanged(s, s')
    else if (if s.phase == 1 then !step.hasPacket else !step.wantsData) then
      Still(s, s') && SameMedia(s, s')
    else if s.phase == 1 then
      Dispatched(s, step.packet, s')
    else
      Moves(s, s') && SameMedia(s, s')
  }

  ghost predicate Turn(s: Shot, step: Step, s': Shot)
    requires step.Sized()
  {
    && Keeps(s, s')
    && match step {
         case Service(_, _, _, _, _, _, _, _, _) => Serves(s, step, s')
         case MountDisc(u, parse) =>
           && Still(s, s')
           && (SameMedia(s, s') || (Laid(s, s') && Made(parse, NewDisc(s, s'))))
           && (u == s.unit && !s.locked && !s.pending && HasLayout(parse) ==> Laid(s, s'))
           && (!(u == s.unit && !s.locked && !s.pending) ==> SameMedia(s, s'))
         case EjectDisc(u) =>
           && Still(s, s')
           && if u == s.unit && !s.locked && !s.pending then Laid(s, s') && NewDisc(s, s').blocks == 0
              else SameMedia(s, s')
         case TryImage(_) => Still(s, s') && SameMedia(s, s')
         case Attach(u) =>
           if s.unit < 0 || s.unit == u then Off(s, s') && s'.unit == u else Still(s, s') && SameMedia(s, s')
         case Remove(u, force) =>
           if u == s.unit || force then Off(s, s') && s'.unit == -1 && s'.current == s.current
           else Still(s, s') && SameMedia(s, s')
       }
  }

  lemma ServeIsTurn(s: Shot, step: Step, t: Shot)
    requires step.Service? && step.Sized() && Keeps(s, t) && Serves(s, step, t)
    ensures Turn(s, step, t)
  {
  }

  /** What a command to the idle drive does. */
  ghost predicate Commanded(s: Shot, step: Step, s': Shot)
    requires step.Service? && step.Sized()
  {
    && Keeps(s, s') && (s.attention != 0 ==> s'.attention != 0)
    && !s'.reading && (s'.phase == 0 || s'.phase == 1)
    && (s'.phase == 1 <==> step.target == s.unit && PacketCommand(step.tfr))
    && (s'.phase == 1 ==> s'.generation == step.state && s'.limit == Limit(step.tfr[5], step.tfr[4]))
    && (if step.target == s.unit && step.tfr[7] == 0xa1 then AddsOnly(s.output, s'.output, step.identity)
        else Adds(s.output, s'.output))
    && s'.locked == (s.locked && !(step.target == s.unit && step.tfr[7] in {8, 0x90}))
    && (!s.pending ==> s'.current == s.current && s'.loaded == s.loaded && s'.pending == s.pending && s'.disc == s.disc)
    && s'.unit == s.unit
  }

  /** Polling and then taking a command is one turn of service. */
  lemma PollThenCommand(s: Shot, step: Step, m: Shot, t: Shot)
    requires step.Service? && step.Sized() && step.command && !Serving(s, step)
    requires Turn(s, step.(command := false), m) && !m.pending && m.unit == s.unit && Commanded(m, step, t)
    requires m.output == s.output
    ensures Turn(s, step, t)
  {
  }

  lemma PollOnly(s: Shot, step: Step, t: Shot)
    requires step.Service? && step.Sized() && (step.command ==> Serving(s, step)) && Turn(s, step.(command := false), t)
    ensures Turn(s, step, t)
  {
  }

  /** The drive is without a disc, and whatever was under way is over. */
  predicate Off(s: Shot, s': Shot) {
    s'.phase == 0 && !s'.reading && !s'.loaded && !s'.pending && !s'.locked && Adds(s.output, s'.output)
  }

  /** A READ under way stands where its data say, an answer under way has something left, and every disc is laid
      out. */
  ghost predicate Sound(s: Shot) {
    && s.phase < 3
    && (s.reading ==>
          && s.phase == 2 && s.disc.Valid()
          && s.read.sent <= s.disc.UserData(s.read.first, s.read.count) && EvenPhases(s.read.phases, s.limit))
    && (s.phase == 2 && !s.reading ==> s.left != [] && 2 <= s.limit && s.limit % 2 == 0)
    && (s.loaded ==> s.disc.blocks > 0 && s.disc.tracks != [])
    && (s.disc.blocks > 0 ==> s.disc.Valid()) && (s.pending && s.waiting.blocks > 0 ==> s.waiting.Valid())
  }

  ghost predicate IsRun(shots: seq<Shot>, steps: seq<Step>) {
    && |shots| == |steps| + 1
    && (forall k :: 0 <= k < |steps| ==> steps[k].Sized())
    && (forall k :: 0 <= k < |shots| ==> Sound(shots[k]))
    && (forall k :: 0 <= k < |steps| ==> Turn(shots[k], steps[k], shots[k + 1]))
  }

  lemma PacketKeeps(s: Shot, packet: seq<byte>, t: Shot)
    requires |packet| == 12 && Dispatched(s, packet, t) && s.phase == 1 && t.waiting == s.waiting
    ensures Keeps(s, t)
  {
    hide Ordered, Reports, ErrorLast, ErrorEvents;
    ErrorReports(s.output, HeadOf(s.unit));
    ErrorIsLast(s.output, t.sense.0, HeadOf(s.unit));
  }

  lemma ErrorIsLast(e: seq<Event>, key: nat, head: nat)
    ensures ErrorLast(e, e + ErrorEvents(key, head), key, head)
  {
  }

  /** A change of media that leaves the transfer alone. */
  lemma StillKeeps(s: Shot, t: Shot)
    requires Still(s, t) && s.phase < 3
    requires (SameMedia(s, t) && (s.pending ==> t.waiting == s.waiting)) || (!s.pending && Laid(s, t))
    ensures Keeps(s, t)
  {
  }

  /** A transfer that is over, and the exchange that follows. */
  lemma AwayKeeps(s: Shot, t: Shot)
    requires Exchanged(s, t) && t.phase == 0 && (s.attention != 0 ==> t.attention != 0)
    requires (!s.pending ==> t.disc == s.disc) && t.sense in {s.sense, (0xb, 0x47, 0)}
    requires t.output == s.output || t.output == s.output + ErrorEvents(0xb, HeadOf(s.unit))
    ensures Keeps(s, t)
  {
  }

  lemma OffKeeps(s: Shot, t: Shot)
    requires Off(s, t) && t.sense in {s.sense, (0, 0, 0)}
    ensures Keeps(s, t)
  {
  }

  lemma MovesKeeps(s: Shot, t: Shot)
    requires Moves(s, t) && SameMedia(s, t) && t.waiting == s.waiting && t.limit == s.limit && t.unit == s.unit
    requires t.sense == s.sense || t.output == s.output + ErrorEvents(t.sense.0, HeadOf(s.unit))
    ensures Keeps(s, t)
  {
    hide Adds, DataPhase, Finished, Readable;
    AddsGrow(s.output);
    ErrorIsLast(s.output, t.sense.0, HeadOf(s.unit));
    PhasesGrow(s.output, t.output, s.read, t.read, t.phase == 0, HeadOf(s.unit));
  }

  // ---------------------------------------------------------------- what the guest receives

  function DataOf(e: seq<Event>): seq<byte> {
    if e == [] then []
    else DataOf(e[..|e| - 1]) + match e[|e| - 1] { case Data(bytes) => bytes case _ => [] }
  }

  /** Lengths of the data phases. */
  function Lengths(e: seq<Event>): seq<nat> {
    if e == [] then []
    else Lengths(e[..|e| - 1]) + match e[|e| - 1] { case Data(bytes) => [|bytes|] case _ => [] }
  }

  predicate NoEnd(e: seq<Event>) {
    forall i :: 0 <= i < |e| && e[i].Status? ==> End !in e[i].flags
  }

  /** What was written between two shots. */
  function Since(s: Shot, s': Shot): seq<Event>
    requires s.output <= s'.output
  {
    s'.output[|s.output|..]
  }

  lemma PhaseReceived(e: seq<Event>, bytes: seq<byte>, last: bool, head: nat)
    ensures DataOf(e + DataPhase(bytes, last, head)) == DataOf(e) + bytes
    ensures Lengths(e + DataPhase(bytes, last, head)) == Lengths(e) + [|bytes|]
    ensures NoEnd(e) && !last ==> NoEnd(e + DataPhase(bytes, last, head))
  {
    var p := DataPhase(bytes, last, head);
    var f := e + p;
    assert f[..|f| - 1] == e + [p[0], p[1]];
    assert f[..|f| - 1][..|f| - 2] == e + [p[0]];
    assert f[..|f| - 1][..|f| - 2][..|f| - 3] == e;
    assert DataOf(e + [p[0]]) == DataOf(e) && Lengths(e + [p[0]]) == Lengths(e);
    assert DataOf(e + [p[0], p[1]]) == DataOf(e) + bytes && Lengths(e + [p[0], p[1]]) == Lengths(e) + [|bytes|];
  }

  // ---------------------------------------------------------------- READs

  /** From step `i` to shot `n` one transfer is under way. */
  predicate UnderWay(shots: seq<Shot>, i: nat, n: nat) {
    i < n < |shots| && forall k :: i < k <= n ==> shots[k].phase == 2
  }

  lemma {:induction false} OutputGrows(shots: seq<Shot>, steps: seq<Step>, i: nat, n: nat)
    requires IsRun(shots, steps) && i <= n < |shots|
    ensures shots[i].output <= shots[n].output
  {
    if i < n {
      OutputGrows(shots, steps, i, n - 1);
      assert Turn(shots[n - 1], steps[n - 1], shots[n]);
    }
  }

  /** The READ accepted at step `i` has by shot `n` delivered a beginning of its data, in even phases within the
      limit, and has not ended; it is the READ the drive's bookkeeping means. */
  ghost predicate Delivering(shots: seq<Shot>, steps: seq<Step>, i: nat, n: nat)
    requires IsRun(shots, steps) && i < n < |shots| && steps[i].Service?
  {
    var s, t := shots[i], shots[n];
    && shots[i + 1].output <= t.output
    && var e := Since(shots[i + 1], t);
      && t.disc == s.disc && t.limit == s.limit && t.unit == s.unit && t.reading
      && t.read == Progress(First(steps[i]), Requested(steps[i].packet), DataOf(e), Lengths(e)) && NoEnd(e)
  }

  /** The bytes a step added to a READ. */
  function Added(s: Shot, t: Shot): seq<byte> {
    if |s.read.sent| <= |t.read.sent| then t.read.sent[|s.read.sent|..] else []
  }

  /** What one step does to a READ under way: nothing, one data phase, or its end. */
  lemma StepOfRead(s: Shot, step: Step, t: Shot)
    requires step.Sized() && Turn(s, step, t) && Sound(s) && s.reading
    ensures t.phase == 2 ==>
              && t.reading && t.disc == s.disc && t.limit == s.limit && t.unit == s.unit
              && ((t.output == s.output && t.read == s.read)
                  || (t.output == s.output + DataPhase(Added(s, t), false, HeadOf(s.unit))
                      && t.read == s.read.Sent(Added(s, t))))
    ensures t.phase != 2 ==>
              || Ended(s, step, t)
              || (t.output == s.output + DataPhase(Added(s, t), true, HeadOf(s.unit))
                  && t.read == s.read.Sent(Added(s, t))
                  && s.disc.Valid() && s.limit > 0 && Finished(s.disc, s.limit, t.read))
  {
    hide Adds, AddsOnly, DataPhase, Finished, ErrorEvents, ReadAccepted, Disc.AllGood, Disc.Valid;
    ErrorIsNoData(s.output, 0xb, HeadOf(s.unit));
    NothingNew(s.output);
    AddsIsOnly(s.output, t.output, if step.Service? then step.identity else []);
  }

  /** A READ was cut off: no more of its data, and not while a working drive is asked for readable blocks. A new
      command may send its own page in the same turn. */
  ghost predicate Ended(s: Shot, step: Step, t: Shot) {
    && (Adds(s.output, t.output)
        || (step.Service? && step.command && !Serving(s, step) && AddsOnly(s.output, t.output, step.identity)))
    && !(Serving(s, step) && !step.expired && Readable(s, s.read))
  }

  lemma ErrorReports(e: seq<Event>, head: nat)
    ensures Reports(e, e + ErrorEvents(6, head))
  {
    var f := e + ErrorEvents(6, head);
    assert f[|e|].TaskFile? && f[|e|].error == 16 * 6 + 4;
  }

  lemma AddsGrow(e: seq<Event>)
    ensures forall e' :: Adds(e, e') ==> e <= e'
    ensures forall e', bytes :: AddsOnly(e, e', bytes) ==> e <= e'
  {
  }

  lemma PhasesGrow(e: seq<Event>, e': seq<Event>, r: Progress, r': Progress, last: bool, head: nat)
    ensures OnePhase(e, e', last, head) || PhaseSent(r, r', e, e', last, head) ==> e <= e'
  {
  }

  lemma CommandTest(tfr: seq<byte>)
    requires |tfr| == 8
    ensures PacketCommand(tfr) <==> tfr[7] == 0xa0 && tfr[1] % 4 == 0 && !(tfr[4] == 1 && tfr[5] == 0)
  {
  }

  lemma ErrorIsNoData(e: seq<Event>, key: nat, head: nat)
    ensures Adds(e, e + ErrorEvents(key, head))
  {
  }

  lemma AddsIsOnly(e: seq<Event>, e': seq<Event>, bytes: seq<byte>)
    ensures Adds(e, e') ==> AddsOnly(e, e', bytes)
  {
  }

  lemma {:induction false} DeliveringNow(shots: seq<Shot>, steps: seq<Step>, i: nat, n: nat)
    requires IsRun(shots, steps) && i < |steps| && Accepts(shots[i], steps[i]) && UnderWay(shots, i, n)
    ensures Delivering(shots, steps, i, n)
  {
    hide Turn, Sound, DataPhase, Accepts;
    TurnAt(shots, steps, n - 1);
    OutputGrows(shots, steps, i + 1, n);
    if n == i + 1 {
      ReadBegins(shots[i], steps[i], shots[n]);
      assert Since(shots[n], shots[n]) == [];
    } else {
      var s, t := shots[n - 1], shots[n];
      DeliveringNow(shots, steps, i, n - 1);
      OutputGrows(shots, steps, i + 1, n - 1);
      StepOfRead(s, steps[n - 1], t);
      if t.output != s.output {
        assert Since(shots[i + 1], t) == Since(shots[i + 1], s) + DataPhase(Added(s, t), false, HeadOf(s.unit));
        PhaseReceived(Since(shots[i + 1], s), Added(s, t), false, HeadOf(s.unit));
      }
    }
  }

  lemma TurnAt(shots: seq<Shot>, steps: seq<Step>, k: nat)
    requires IsRun(shots, steps) && k < |steps|
    ensures steps[k].Sized() && Turn(shots[k], steps[k], shots[k + 1]) && Sound(shots[k]) && Sound(shots[k + 1])
  {
  }

  lemma ReadBegins(s: Shot, step: Step, t: Shot)
    requires step.Sized() && Turn(s, step, t) && Accepts(s, step) && t.phase == 2
    ensures t.reading && t.disc == s.disc && t.limit == s.limit && t.unit == s.unit
    ensures t.read == Progress(First(step), Requested(step.packet), [], [])
  {
  }

  /** What the guest received of a READ is a beginning of the data it asked for, on the disc it was accepted for. */
  ghost predicate SoFar(shots: seq<Shot>, steps: seq<Step>, i: nat, n: nat)
    requires i < n < |shots| && i < |steps| && steps[i].Service? && steps[i].Sized()
  {
    var s, t := shots[i], shots[n];
    && shots[i + 1].output <= t.output && s.disc.Valid() && t.disc == s.disc
    && var e := Since(shots[i + 1], t);
      && DataOf(e) <= s.disc.UserData(First(steps[i]), Requested(steps[i].packet))
      && EvenPhases(Lengths(e), s.limit) && NoEnd(e)
  }

  /** The READ delivered all blocks asked for, good ones, in as many phases as the limit calls for; END came with the
      last and no other. */
  ghost predicate Whole(shots: seq<Shot>, steps: seq<Step>, i: nat, n: nat)
    requires i < n < |shots| && i < |steps| && steps[i].Service? && steps[i].Sized()
  {
    var s, t := shots[i], shots[n];
    var first, count := First(steps[i]), Requested(steps[i].packet);
    && shots[i + 1].output <= t.output && s.disc.Valid() && s.limit > 0
    && var e := Since(shots[i + 1], t);
      && s.disc.AllGood(first, count) && DataOf(e) == s.disc.UserData(first, count)
      && |Lengths(e)| == Span(count, PhasesPerBlock(s.limit)) && EvenPhases(Lengths(e), s.limit)
      && |e| > 0 && e[|e| - 1] == Status({Irq, End}) && NoEnd(e[..|e| - 1])
  }

  lemma ReadUnderWay(shots: seq<Shot>, steps: seq<Step>, i: nat, n: nat)
    requires IsRun(shots, steps) && i < |steps| && Accepts(shots[i], steps[i]) && UnderWay(shots, i, n)
    ensures SoFar(shots, steps, i, n)
  {
    hide Turn, Accepts, NoEnd, EvenPhases;
    DeliveringNow(shots, steps, i, n);
    SoundAt(shots, steps, n);
  }

  lemma SoundAt(shots: seq<Shot>, steps: seq<Step>, n: nat)
    requires IsRun(shots, steps) && n < |shots|
    ensures Sound(shots[n])
  {
  }

  lemma ReadOver(shots: seq<Shot>, steps: seq<Step>, i: nat, n: nat)
    requires IsRun(shots, steps) && i < |steps| && Accepts(shots[i], steps[i]) && UnderWay(shots, i, n)
    requires n < |steps| && shots[n + 1].phase != 2
    ensures Ended(shots[n], steps[n], shots[n + 1]) || Whole(shots, steps, i, n + 1)
  {
    hide Turn, Sound, DataPhase, Accepts, EvenPhases, Ended, Finished;
    var s, t := shots[n], shots[n + 1];
    TurnAt(shots, steps, n);
    DeliveringNow(shots, steps, i, n);
    OutputGrows(shots, steps, i + 1, n + 1);
    StepOfRead(s, steps[n], t);
    if !Ended(s, steps[n], t) {
      var e, b := Since(shots[i + 1], s), Added(s, t);
      assert Since(shots[i + 1], t) == e + DataPhase(b, true, HeadOf(s.unit));
      PhaseReceived(e, b, true, HeadOf(s.unit));
      LastPhase(e, b, HeadOf(s.unit));
      FinishedFacts(s.disc, s.limit, t.read);
    }
  }

  lemma FinishedFacts(d: Disc, limit: nat, r: Progress)
    requires d.Valid() && limit > 0 && Finished(d, limit, r)
    ensures d.AllGood(r.first, r.count) && r.sent == d.UserData(r.first, r.count)
    ensures |r.phases| == Span(r.count, PhasesPerBlock(limit)) && EvenPhases(r.phases, limit)
  {
  }

  lemma LastPhase(e: seq<Event>, bytes: seq<byte>, head: nat)
    requires NoEnd(e)
    ensures var f := e + DataPhase(bytes, true, head);
      f[|f| - 1] == Status({Irq, End}) && NoEnd(f[..|f| - 1])
  {
    var p := DataPhase(bytes, true, head);
    assert (e + p)[..|e + p| - 1] == e + [p[0], p[1]];
  }

  // ---------------------------------------------------------------- answers

  /** The answer begun at step `i` has by shot `n` delivered all but what is left of it, in full phases, and has not
      ended. */
  ghost predicate Answering(shots: seq<Shot>, steps: seq<Step>, i: nat, n: nat)
    requires IsRun(shots, steps) && i < n < |shots| && AnswerStarts(shots[i], steps[i])
  {
    var s, t := shots[i], shots[n];
    && shots[i + 1].output <= t.output
    && var e := Since(shots[i + 1], t);
      && t.limit == s.limit && t.unit == s.unit && !t.reading
      && DataOf(e) + t.left == Fate(s, steps[i]).bytes && Filled(Lengths(e), s.limit) && NoEnd(e)
  }

  predicate Filled(phases: seq<nat>, limit: nat) {
    forall i :: 0 <= i < |phases| ==> phases[i] == limit
  }

  lemma FilledMore(phases: seq<nat>, limit: nat)
    requires Filled(phases, limit)
    ensures Filled(phases + [limit], limit)
  {
  }

  /** What one step does to an answer under way: nothing, one data phase, or its end. */
  lemma StepOfAnswer(s: Shot, step: Step, t: Shot)
    requires step.Sized() && Turn(s, step, t) && Sound(s) && s.phase == 2 && !s.reading
    ensures t.phase == 2 ==>
              && !t.reading && t.limit == s.limit && t.unit == s.unit
              && ((t.output == s.output && t.left == s.left)
                  || (s.limit < |s.left| && t.left == s.left[s.limit..]
                      && t.output == s.output + DataPhase(s.left[..s.limit], false, HeadOf(s.unit))))
    ensures t.phase != 2 ==>
              || Dropped(s, step, t)
              || (|s.left| <= s.limit && t.output == s.output + DataPhase(s.left, true, HeadOf(s.unit)))
  {
    hide Adds, AddsOnly, DataPhase, ErrorEvents, Disc.AllGood, Disc.Valid, Decide, After;
    ErrorIsNoData(s.output, 0xb, HeadOf(s.unit));
    NothingNew(s.output);
    AddsIsOnly(s.output, t.output, if step.Service? then step.identity else []);
    assert s.left[..|s.left|] == s.left;
  }

  /** An answer was cut off: no more of it, and only because the guest or the time ended the command. */
  ghost predicate Dropped(s: Shot, step: Step, t: Shot) {
    && (Adds(s.output, t.output)
        || (step.Service? && step.command && !Serving(s, step) && AddsOnly(s.output, t.output, step.identity)))
    && !(Serving(s, step) && !step.expired)
  }

  lemma AnswerBegins(s: Shot, step: Step, t: Shot)
    requires step.Sized() && Turn(s, step, t) && AnswerStarts(s, step)
    ensures t.phase == 2 && !t.reading && t.left == Fate(s, step).bytes && t.limit == s.limit && t.unit == s.unit
  {
    hide Decide, After;
  }

  lemma {:induction false} AnsweringNow(shots: seq<Shot>, steps: seq<Step>, i: nat, n: nat)
    requires IsRun(shots, steps) && i < |steps| && AnswerStarts(shots[i], steps[i]) && UnderWay(shots, i, n)
    ensures Answering(shots, steps, i, n)
  {
    hide Turn, Sound, DataPhase, Fate, Taken, Filled, NoEnd;
    TurnAt(shots, steps, n - 1);
    OutputGrows(shots, steps, i + 1, n);
    if n == i + 1 {
      AnswerBegins(shots[i], steps[i], shots[n]);
      assert Since(shots[n], shots[n]) == [];
      NoPhases(shots[i].limit);
    } else {
      var s, t := shots[n - 1], shots[n];
      AnsweringNow(shots, steps, i, n - 1);
      OutputGrows(shots, steps, i + 1, n - 1);
      StepOfAnswer(s, steps[n - 1], t);
      if t.output != s.output {
        OnePhaseMore(shots[i + 1], s, t);
      }
    }
  }

  /** One more phase of an answer. */
  lemma OnePhaseMore(a: Shot, s: Shot, t: Shot)
    requires a.output <= s.output && 0 <= s.limit < |s.left| && t.left == s.left[s.limit..]
    requires t.output == s.output + DataPhase(s.left[..s.limit], false, HeadOf(s.unit))
    ensures a.output <= t.output && DataOf(Since(a, t)) + t.left == DataOf(Since(a, s)) + s.left
    ensures Filled(Lengths(Since(a, s)), s.limit) ==> Filled(Lengths(Since(a, t)), s.limit)
    ensures NoEnd(Since(a, s)) ==> NoEnd(Since(a, t))
  {
    hide DataPhase, DataOf, Lengths, NoEnd, Filled;
    var e, b := Since(a, s), s.left[..s.limit];
    assert Since(a, t) == e + DataPhase(b, false, HeadOf(s.unit));
    PhaseReceived(e, b, false, HeadOf(s.unit));
    if Filled(Lengths(e), s.limit) {
      FilledMore(Lengths(e), s.limit);
    }
    assert DataOf(e) + b + t.left == DataOf(e) + s.left;
  }

  lemma NoPhases(limit: nat)
    ensures Filled([], limit) && NoEnd([]) && DataOf([]) == [] && Lengths([]) == []
  {
  }

  /** What the guest received of an answer is a beginning of its page. */
  ghost predicate AnsweredSoFar(shots: seq<Shot>, steps: seq<Step>, i: nat, n: nat)
    requires i < n < |shots| && i < |steps| && steps[i].Sized() && AnswerStarts(shots[i], steps[i])
  {
    && shots[i + 1].output <= shots[n].output
    && var e := Since(shots[i + 1], shots[n]);
      DataOf(e) <= Fate(shots[i], steps[i]).bytes && Filled(Lengths(e), shots[i].limit) && NoEnd(e)
  }

  /** The whole page was sent, in full phases and a last one, with END after the last and no other. */
  ghost predicate AnsweredWhole(shots: seq<Shot>, steps: seq<Step>, i: nat, n: nat)
    requires i < n < |shots| && i < |steps| && steps[i].Sized() && AnswerStarts(shots[i], steps[i])
  {
    && shots[i + 1].output <= shots[n].output
    && var e := Since(shots[i + 1], shots[n]);
      && DataOf(e) == Fate(shots[i], steps[i]).bytes
      && |Lengths(e)| > 0 && Filled(Lengths(e)[..|Lengths(e)| - 1], shots[i].limit)
      && 0 < Lengths(e)[|Lengths(e)| - 1] <= shots[i].limit
      && |e| > 0 && e[|e| - 1] == Status({Irq, End}) && NoEnd(e[..|e| - 1])
  }

  lemma AnswerUnderWay(shots: seq<Shot>, steps: seq<Step>, i: nat, n: nat)
    requires IsRun(shots, steps) && i < |steps| && AnswerStarts(shots[i], steps[i]) && UnderWay(shots, i, n)
    ensures AnsweredSoFar(shots, steps, i, n)
  {
    hide Turn, Sound, Fate, Taken, NoEnd, Filled;
    AnsweringNow(shots, steps, i, n);
  }

  lemma AnswerOver(shots: seq<Shot>, steps: seq<Step>, i: nat, n: nat)
    requires IsRun(shots, steps) && i < |steps| && AnswerStarts(shots[i], steps[i]) && UnderWay(shots, i, n)
    requires n < |steps| && shots[n + 1].phase != 2
    ensures Dropped(shots[n], steps[n], shots[n + 1]) || AnsweredWhole(shots, steps, i, n + 1)
  {
    hide Turn, DataPhase, Fate, Taken, Dropped, Filled;
    var s, t := shots[n], shots[n + 1];
    TurnAt(shots, steps, n);
    AnsweringNow(shots, steps, i, n);
    OutputGrows(shots, steps, i + 1, n + 1);
    StepOfAnswer(s, steps[n], t);
    if !Dropped(s, steps[n], t) {
      var e := Since(shots[i + 1], s);
      assert Since(shots[i + 1], t) == e + DataPhase(s.left, true, HeadOf(s.unit));
      PhaseReceived(e, s.left, true, HeadOf(s.unit));
      LastPhase(e, s.left, HeadOf(s.unit));
      assert (Lengths(e) + [|s.left|])[..|Lengths(e)|] == Lengths(e);
    }
  }
}
