/** What holds of every run of the CD drive: what each READ and each answer delivers, where data come from, when a new
    disc is told of, and which disc comes in. */
module CdLaws {
  import opened CdLayout
  import opened CdTransfer
  import opened CdAnswers
  import opened CdTrace

  // ---------------------------------------------------------------- transfers

  /** Every accepted READ delivers a beginning of its data for as long as it is under way; when it is over it
      delivered all of them or was cut off. */
  ghost predicate ReadLaw(shots: seq<Shot>, steps: seq<Step>)
    requires IsRun(shots, steps)
  {
    forall i: nat, n: nat :: i < |steps| && UnderWay(shots, i, n) && Accepts(shots[i], steps[i]) ==>
      SoFar(shots, steps, i, n)
      && (n < |steps| && shots[n + 1].phase != 2 ==>
        Ended(shots[n], steps[n], shots[n + 1]) || Whole(shots, steps, i, n + 1))
  }

  /** So does every answer with its page. */
  ghost predicate AnswerLaw(shots: seq<Shot>, steps: seq<Step>)
    requires IsRun(shots, steps)
  {
    forall i: nat, n: nat :: i < |steps| && UnderWay(shots, i, n) && AnswerStarts(shots[i], steps[i]) ==>
      AnsweredSoFar(shots, steps, i, n)
      && (n < |steps| && shots[n + 1].phase != 2 ==>
        Dropped(shots[n], steps[n], shots[n + 1]) || AnsweredWhole(shots, steps, i, n + 1))
  }

  lemma SizedAll(shots: seq<Shot>, steps: seq<Step>)
    requires IsRun(shots, steps)
    ensures |shots| == |steps| + 1 && forall k :: 0 <= k < |steps| ==> steps[k].Sized()
    ensures forall i: nat :: i < |steps| && Accepts(shots[i], steps[i]) ==> steps[i].Service?
  {
  }

  lemma RunReads(shots: seq<Shot>, steps: seq<Step>)
    requires IsRun(shots, steps)
    ensures ReadLaw(shots, steps)
  {
    hide SoFar, Whole, Ended, Turn, Sound;
    SizedAll(shots, steps);
    forall i: nat, n: nat | i < |steps| && UnderWay(shots, i, n) && Accepts(shots[i], steps[i])
      ensures SoFar(shots, steps, i, n)
      ensures n < |steps| && shots[n + 1].phase != 2 ==>
                Ended(shots[n], steps[n], shots[n + 1]) || Whole(shots, steps, i, n + 1)
    {
      ReadUnderWay(shots, steps, i, n);
      if n < |steps| && shots[n + 1].phase != 2 {
        ReadOver(shots, steps, i, n);
      }
    }
  }

  lemma RunAnswers(shots: seq<Shot>, steps: seq<Step>)
    requires IsRun(shots, steps)
    ensures AnswerLaw(shots, steps)
  {
    hide AnsweredSoFar, AnsweredWhole, Dropped, Turn, Sound, AnswerStarts;
    SizedAll(shots, steps);
    forall i: nat, n: nat | i < |steps| && UnderWay(shots, i, n) && AnswerStarts(shots[i], steps[i])
      ensures AnsweredSoFar(shots, steps, i, n)
      ensures n < |steps| && shots[n + 1].phase != 2 ==>
                Dropped(shots[n], steps[n], shots[n + 1]) || AnsweredWhole(shots, steps, i, n + 1)
    {
      AnswerUnderWay(shots, steps, i, n);
      if n < |steps| && shots[n + 1].phase != 2 {
        AnswerOver(shots, steps, i, n);
      }
    }
  }

  // ---------------------------------------------------------------- how long data phases are

  /** The drive waits at shot `i` for the packet of the command taken at step `c`, with the limit that asked for. */
  predicate Orders(shots: seq<Shot>, steps: seq<Step>, c: nat, i: nat) {
    && c < i < |shots| && c < |steps| && steps[c].Service? && steps[c].Sized() && steps[c].command
    && Grants(steps[c].tfr, shots[i].limit) && forall k :: c < k <= i ==> shots[k].phase == 1
  }

  /** It has waited for a packet since the run began. */
  predicate WaitsFromStart(shots: seq<Shot>, i: nat) {
    i < |shots| && forall k :: 0 <= k <= i ==> shots[k].phase == 1
  }

  lemma StepOfOrder(s: Shot, step: Step, t: Shot)
    requires step.Sized() && Turn(s, step, t) && t.phase == 1
    ensures (s.phase == 1 && t.limit == s.limit) || (step.Service? && step.command && Grants(step.tfr, t.limit))
  {
    hide Keeps, Limit, Grants, Decide, After, SameMedia, AddsOnly, Readable, PhaseSent, Finished, DataPhase;
    if step.Service? && step.command && PacketCommand(step.tfr) {
      LimitGrants(step.tfr);
    }
  }

  /** Whenever the drive waits for a packet, some command made it. */
  lemma {:induction false} WhoOrdered(shots: seq<Shot>, steps: seq<Step>, i: nat)
    requires IsRun(shots, steps) && i < |shots| && shots[i].phase == 1
    ensures WaitsFromStart(shots, i) || exists c: nat :: Orders(shots, steps, c, i)
  {
    hide Turn, Sound, Grants;
    if i > 0 {
      var p := i - 1;
      TurnAt(shots, steps, p);
      StepOfOrder(shots[p], steps[p], shots[i]);
      if shots[p].phase == 1 && shots[i].limit == shots[p].limit {
        WhoOrdered(shots, steps, p);
        if c: nat :| Orders(shots, steps, c, p) {
          assert Orders(shots, steps, c, i);
        }
      } else {
        assert Orders(shots, steps, p, i);
      }
    }
  }

  /** The data phases of a READ or an answer from step `i` on keep to what the command at step `c` asked for. */
  ghost predicate PhasesFit(shots: seq<Shot>, steps: seq<Step>, c: nat, i: nat, n: nat) {
    && i + 1 < |shots| && n < |shots| && c < |steps| && steps[c].Service? && steps[c].Sized()
    && shots[i + 1].output <= shots[n].output
    && AllFit(steps[c].tfr, Lengths(Since(shots[i + 1], shots[n])))
  }

  lemma ReadFits(shots: seq<Shot>, steps: seq<Step>, c: nat, i: nat, n: nat)
    requires IsRun(shots, steps) && i < |steps| && Accepts(shots[i], steps[i]) && UnderWay(shots, i, n)
    requires Orders(shots, steps, c, i)
    ensures PhasesFit(shots, steps, c, i, n)
    ensures n < |steps| && shots[n + 1].phase != 2 ==>
              Ended(shots[n], steps[n], shots[n + 1]) || PhasesFit(shots, steps, c, i, n + 1)
  {
    hide Turn, Sound, Accepts, Grants, AllFit, Ended, NoEnd;
    ReadUnderWay(shots, steps, i, n);
    FitsLimit(steps[c].tfr, shots[i].limit, Lengths(Since(shots[i + 1], shots[n])));
    if n < |steps| && shots[n + 1].phase != 2 && !Ended(shots[n], steps[n], shots[n + 1]) {
      ReadOver(shots, steps, i, n);
      FitsLimit(steps[c].tfr, shots[i].limit, Lengths(Since(shots[i + 1], shots[n + 1])));
    }
  }

  lemma AnswerFits(shots: seq<Shot>, steps: seq<Step>, c: nat, i: nat, n: nat)
    requires IsRun(shots, steps) && i < |steps| && AnswerStarts(shots[i], steps[i]) && UnderWay(shots, i, n)
    requires Orders(shots, steps, c, i)
    ensures PhasesFit(shots, steps, c, i, n)
    ensures n < |steps| && shots[n + 1].phase != 2 ==>
              Dropped(shots[n], steps[n], shots[n + 1]) || PhasesFit(shots, steps, c, i, n + 1)
  {
    hide Turn, Sound, AnswerStarts, Grants, AllFit, Dropped, NoEnd;
    AnswerUnderWay(shots, steps, i, n);
    FitsLimit(steps[c].tfr, shots[i].limit, Lengths(Since(shots[i + 1], shots[n])));
    if n < |steps| && shots[n + 1].phase != 2 && !Dropped(shots[n], steps[n], shots[n + 1]) {
      AnswerOver(shots, steps, i, n);
      var phases := Lengths(Since(shots[i + 1], shots[n + 1]));
      assert forall k :: 0 <= k < |phases| - 1 ==> phases[k] == phases[..|phases| - 1][k];
      FitsLimit(steps[c].tfr, shots[i].limit, phases);
    }
  }

  /** Every packet belongs to a command, and the data phases of what it starts are no longer than that asked for. */
  ghost predicate PhaseLaw(shots: seq<Shot>, steps: seq<Step>)
    requires IsRun(shots, steps)
  {
    && (forall i: nat :: i < |shots| && shots[i].phase == 1 ==>
          WaitsFromStart(shots, i) || exists c: nat :: Orders(shots, steps, c, i))
    && (forall c: nat, i: nat, n: nat :: i < |steps| && Orders(shots, steps, c, i) && UnderWay(shots, i, n) ==>
          (Accepts(shots[i], steps[i]) ==>
             PhasesFit(shots, steps, c, i, n)
             && (n < |steps| && shots[n + 1].phase != 2 ==>
                   Ended(shots[n], steps[n], shots[n + 1]) || PhasesFit(shots, steps, c, i, n + 1)))
          && (AnswerStarts(shots[i], steps[i]) ==>
                PhasesFit(shots, steps, c, i, n)
                && (n < |steps| && shots[n + 1].phase != 2 ==>
                      Dropped(shots[n], steps[n], shots[n + 1]) || PhasesFit(shots, steps, c, i, n + 1))))
  }

  lemma RunPhases(shots: seq<Shot>, steps: seq<Step>)
    requires IsRun(shots, steps)
    ensures PhaseLaw(shots, steps)
  {
    hide Turn, Sound, Accepts, AnswerStarts, Orders, WaitsFromStart, PhasesFit, Ended, Dropped;
    forall i: nat | i < |shots| && shots[i].phase == 1
      ensures WaitsFromStart(shots, i) || exists c: nat :: Orders(shots, steps, c, i)
    {
      WhoOrdered(shots, steps, i);
    }
    forall c: nat, i: nat, n: nat |
      i < |steps| && Orders(shots, steps, c, i) && UnderWay(shots, i, n) && Accepts(shots[i], steps[i])
      ensures PhasesFit(shots, steps, c, i, n)
      ensures n < |steps| && shots[n + 1].phase != 2 ==>
                Ended(shots[n], steps[n], shots[n + 1]) || PhasesFit(shots, steps, c, i, n + 1)
    {
      ReadFits(shots, steps, c, i, n);
    }
    forall c: nat, i: nat, n: nat |
      i < |steps| && Orders(shots, steps, c, i) && UnderWay(shots, i, n) && AnswerStarts(shots[i], steps[i])
      ensures PhasesFit(shots, steps, c, i, n)
      ensures n < |steps| && shots[n + 1].phase != 2 ==>
                Dropped(shots[n], steps[n], shots[n + 1]) || PhasesFit(shots, steps, c, i, n + 1)
    {
      AnswerFits(shots, steps, c, i, n);
    }
  }

  // ---------------------------------------------------------------- where data come from

  /** Data reach the guest only in a transfer under way, or as the page a command asks for. */
  predicate FromTransfer(s: Shot, step: Step, t: Shot)
    requires step.Sized()
  {
    || Adds(s.output, t.output)
    || (Serving(s, step) && s.phase == 2 && step.wantsData)
    || (step.Service? && step.command && !Serving(s, step) && step.target == s.unit && step.tfr[7] == 0xa1
        && AddsOnly(s.output, t.output, step.identity))
  }

  lemma DataOrigin(s: Shot, step: Step, t: Shot)
    requires step.Sized() && Turn(s, step, t) && s.phase < 3
    ensures FromTransfer(s, step, t)
  {
    hide AddsOnly, Adds, Moves, Decide, After;
    ErrorIsNoData(s.output, 0xb, HeadOf(s.unit));
    NothingNew(s.output);
    if Taken(s, step) {
      SeenIsNoData(s.output, Fate(s, step), HeadOf(s.unit));
    }
  }

  lemma SeenIsNoData(e: seq<Event>, v: Verdict, head: nat)
    ensures Adds(e, e + Seen(v, head))
  {
  }

  /** A transfer begins with a packet the drive takes: an accepted READ, or an answer. */
  lemma TransferBegins(s: Shot, step: Step, t: Shot)
    requires step.Sized() && Turn(s, step, t) && s.phase < 2 && t.phase == 2
    ensures Accepts(s, step) || AnswerStarts(s, step)
    ensures !(Accepts(s, step) && AnswerStarts(s, step)) && (t.reading <==> Accepts(s, step))
  {
    hide Decide, After, ReadAccepted;
    assert Taken(s, step);
    ReadsExactly(step.packet, StandOf(s), s.disc.tracks, s.disc.blocks);
  }

  /** Data come only from transfers and from the page a command asks for, and every transfer was begun by an accepted
      READ or by a packet with an answer. */
  ghost predicate OriginLaw(shots: seq<Shot>, steps: seq<Step>)
    requires IsRun(shots, steps)
  {
    forall k: nat :: k < |steps| ==>
      FromTransfer(shots[k], steps[k], shots[k + 1])
      && (shots[k].phase != 2 && shots[k + 1].phase == 2 ==>
            Accepts(shots[k], steps[k]) || AnswerStarts(shots[k], steps[k]))
  }

  lemma RunOrigins(shots: seq<Shot>, steps: seq<Step>)
    requires IsRun(shots, steps)
    ensures OriginLaw(shots, steps)
  {
    hide Turn, FromTransfer, Accepts, AnswerStarts;
    forall k: nat | k < |steps|
      ensures FromTransfer(shots[k], steps[k], shots[k + 1])
      ensures shots[k].phase != 2 && shots[k + 1].phase == 2 ==>
                Accepts(shots[k], steps[k]) || AnswerStarts(shots[k], steps[k])
    {
      TurnAt(shots, steps, k);
      DataOrigin(shots[k], steps[k], shots[k + 1]);
      if shots[k].phase != 2 && shots[k + 1].phase == 2 {
        TransferBegins(shots[k], steps[k], shots[k + 1]);
      }
    }
  }

  // ---------------------------------------------------------------- new discs are announced

  /** Between the step that brought a disc in and a later packet that tells of it, a unit attention is reported. */
  ghost predicate Announced(shots: seq<Shot>, steps: seq<Step>, e: nat, n: nat)
    requires |shots| == |steps| + 1
  {
    exists k :: e < k < n && k < |steps| && Reports(shots[k].output, shots[k + 1].output)
  }

  lemma {:induction false} Pending(shots: seq<Shot>, steps: seq<Step>, e: nat, n: nat)
    requires IsRun(shots, steps) && e < n < |shots| && Enters(shots[e], shots[e + 1])
    ensures shots[n].attention != 0 || !shots[n].loaded || Announced(shots, steps, e, n)
  {
    hide Reports, Serves, Sound, Still, Sensed;
    TurnAt(shots, steps, n - 1);
    if n > e + 1 {
      Pending(shots, steps, e, n - 1);
      if Announced(shots, steps, e, n - 1) {
        assert Announced(shots, steps, e, n);
      }
    }
  }

  /** A packet that tells of the disc finds one loaded, and no unit attention pending. */
  lemma TellsOfKnown(s: Shot, step: Step)
    requires step.Sized() && Tells(s, step)
    ensures s.attention == 0 && s.loaded
  {
    hide Decide, After;
    DiscTold(step.packet, StandOf(s), s.disc.tracks, s.disc.blocks);
  }

  lemma AnnouncedFirst(shots: seq<Shot>, steps: seq<Step>, e: nat, i: nat)
    requires IsRun(shots, steps) && e < i < |steps| && Enters(shots[e], shots[e + 1]) && Tells(shots[i], steps[i])
    ensures Announced(shots, steps, e, i)
  {
    hide Turn, Sound, Tells;
    Pending(shots, steps, e, i);
    TellsOfKnown(shots[i], steps[i]);
  }

  /** READs and tables of contents tell of the disc. */
  lemma TellsAll(s: Shot, step: Step)
    requires step.Sized() && Sound(s)
    ensures Accepts(s, step) ==> Tells(s, step)
    ensures AnswerStarts(s, step) && step.packet[0] in {0x25, 0x43} ==> Tells(s, step)
  {
    hide Decide, After, ReadAccepted;
    if Taken(s, step) {
      ReadsExactly(step.packet, StandOf(s), s.disc.tracks, s.disc.blocks);
      AnswersTell(step.packet, StandOf(s), s.disc.tracks, s.disc.blocks);
    }
  }

  /** Between a disc coming in and the next packet that tells of it a unit attention is reported. */
  ghost predicate NewDiscLaw(shots: seq<Shot>, steps: seq<Step>)
    requires IsRun(shots, steps)
  {
    forall e: nat, i: nat :: e < i < |steps| && Enters(shots[e], shots[e + 1]) && Tells(shots[i], steps[i]) ==>
      Announced(shots, steps, e, i)
  }

  lemma RunNewDiscs(shots: seq<Shot>, steps: seq<Step>)
    requires IsRun(shots, steps)
    ensures NewDiscLaw(shots, steps)
  {
    hide Turn, Sound, Tells;
    forall e: nat, i: nat | e < i < |steps| && Enters(shots[e], shots[e + 1]) && Tells(shots[i], steps[i])
      ensures Announced(shots, steps, e, i)
    {
      AnnouncedFirst(shots, steps, e, i);
    }
  }

  // ---------------------------------------------------------------- which disc comes in

  /** A mount or an eject the drive accepts. */
  predicate Lays(s: Shot, step: Step, t: Shot) {
    && (step.MountDisc? || step.EjectDisc?) && !s.pending
    && (t.pending || t.current != s.current)
  }

  /** The disc such a step brings: the laid-out disc of the sheet mounted, or none. */
  predicate Brings(step: Step, d: Disc) {
    match step
    case MountDisc(_, parse) => Made(parse, d) && d.Valid()
    case EjectDisc(_) => d.blocks == 0
    case _ => false
  }

  /** Another disc comes in; configuring the drive empties it instead. */
  predicate Swaps(s: Shot, step: Step, t: Shot) {
    t.current != s.current && !step.Attach?
  }

  /** From shot `i` to shot `n` a disc waits. */
  predicate Waits(shots: seq<Shot>, i: nat, n: nat) {
    n < |shots| && forall k :: i <= k <= n ==> shots[k].pending
  }

  /** The disc was laid ready by the accepted mount or eject at step `m`, and has waited since, so that no other was
      accepted; or it waits since the run began. */
  ghost predicate LaidAt(shots: seq<Shot>, steps: seq<Step>, m: nat, n: nat, d: Disc) {
    m < n < |shots| && m < |steps| && Lays(shots[m], steps[m], shots[m + 1]) && Brings(steps[m], d)
    && Waits(shots, m + 1, n)
  }

  ghost predicate FromStart(shots: seq<Shot>, n: nat, d: Disc) {
    |shots| > 0 && Waits(shots, 0, n) && d == shots[0].waiting
  }

  /** The disc that waits is that of the last accepted mount or eject. */
  lemma {:induction false} WaitingDisc(shots: seq<Shot>, steps: seq<Step>, n: nat)
    requires IsRun(shots, steps) && n < |shots| && shots[n].pending
    ensures FromStart(shots, n, shots[n].waiting) || exists m: nat :: LaidAt(shots, steps, m, n, shots[n].waiting)
  {
    hide Turn, Sound, Brings, Lays;
    if n > 0 {
      var k := n - 1;
      var s, t := shots[k], shots[n];
      TurnAt(shots, steps, k);
      StepOfWaiting(s, steps[k], t);
      if s.pending {
        WaitingDisc(shots, steps, k);
        if m: nat :| LaidAt(shots, steps, m, k, s.waiting) {
          assert LaidAt(shots, steps, m, n, t.waiting);
        }
      } else {
        assert LaidAt(shots, steps, k, n, t.waiting);
      }
    }
  }

  lemma StepOfWaiting(s: Shot, step: Step, t: Shot)
    requires step.Sized() && Turn(s, step, t) && Sound(t) && t.pending
    ensures s.pending ==> t.waiting == s.waiting
    ensures !s.pending ==> Lays(s, step, t) && Brings(step, t.waiting)
  {
    hide Sensed, Disc.Valid, SameCue, Reports, Moves, Decide, After;
  }

  /** A disc comes in either at once, laid by this very step, or because it waited. */
  lemma StepOfSwap(s: Shot, step: Step, t: Shot)
    requires step.Sized() && Turn(s, step, t) && Sound(s) && Sound(t) && Swaps(s, step, t)
    ensures t.loaded <==> t.disc.blocks > 0
    ensures if s.pending then t.disc == s.waiting else Lays(s, step, t) && Brings(step, t.disc)
  {
    hide Sensed, Disc.Valid, SameCue, Reports, Moves, Decide, After;
  }

  /** Every disc that comes in is the one of the last mount or eject the drive accepted. */
  ghost predicate ExchangeLaw(shots: seq<Shot>, steps: seq<Step>)
    requires IsRun(shots, steps)
  {
    forall e: nat :: e < |steps| && Swaps(shots[e], steps[e], shots[e + 1]) ==>
      CameFrom(shots, steps, e) && (shots[e + 1].loaded <==> shots[e + 1].disc.blocks > 0)
  }

  ghost predicate CameFrom(shots: seq<Shot>, steps: seq<Step>, e: nat)
    requires |shots| == |steps| + 1 && e < |steps|
  {
    var d := shots[e + 1].disc;
    || (Lays(shots[e], steps[e], shots[e + 1]) && Brings(steps[e], d))
    || FromStart(shots, e, d)
    || exists m: nat :: LaidAt(shots, steps, m, e, d)
  }

  lemma RunExchanges(shots: seq<Shot>, steps: seq<Step>)
    requires IsRun(shots, steps)
    ensures ExchangeLaw(shots, steps)
  {
    hide Turn, Sound, Brings, Lays, Swaps, LaidAt, FromStart;
    forall e: nat | e < |steps| && Swaps(shots[e], steps[e], shots[e + 1])
      ensures CameFrom(shots, steps, e) && (shots[e + 1].loaded <==> shots[e + 1].disc.blocks > 0)
    {
      TurnAt(shots, steps, e);
      StepOfSwap(shots[e], steps[e], shots[e + 1]);
      if shots[e].pending {
        WaitingDisc(shots, steps, e);
      }
    }
  }

  // ---------------------------------------------------------------- sense data

  /** The sense data at shot `n` were reported to the guest as an error by the step before shot `k`. */
  ghost predicate Reported(shots: seq<Shot>, k: nat, n: nat) {
    0 < k <= n < |shots|
    && ErrorLast(shots[k - 1].output, shots[k].output, shots[n].sense.0, HeadOf(shots[k - 1].unit))
    && forall j :: k <= j <= n ==> shots[j].sense == shots[n].sense
  }

  /** Sense data are cleared, those of an abandoned command, from before the run, or of the last error reported. */
  ghost predicate SenseLaw(shots: seq<Shot>) {
    forall n: nat :: n < |shots| ==>
      shots[n].sense in {shots[0].sense, (0, 0, 0), (0xb, 0x47, 0)} || exists k: nat :: Reported(shots, k, n)
  }

  lemma {:induction false} SenseAt(shots: seq<Shot>, steps: seq<Step>, n: nat)
    requires IsRun(shots, steps) && n < |shots|
    ensures shots[n].sense in {shots[0].sense, (0, 0, 0), (0xb, 0x47, 0)} || exists k: nat :: Reported(shots, k, n)
  {
    hide Sound, Serves, Still, Reports, ErrorLast;
    if n > 0 {
      var p := n - 1;
      TurnAt(shots, steps, p);
      SenseAt(shots, steps, p);
      if shots[n].sense == shots[p].sense {
        if k: nat :| Reported(shots, k, p) {
          assert Reported(shots, k, n);
        }
      } else if shots[n].sense !in {(0, 0, 0), (0xb, 0x47, 0)} {
        assert Reported(shots, n, n);
      }
    }
  }

  lemma RunSense(shots: seq<Shot>, steps: seq<Step>)
    requires IsRun(shots, steps)
    ensures SenseLaw(shots)
  {
    forall n: nat | n < |shots|
      ensures shots[n].sense in {shots[0].sense, (0, 0, 0), (0xb, 0x47, 0)} || exists k: nat :: Reported(shots, k, n)
    {
      SenseAt(shots, steps, n);
    }
  }
}
