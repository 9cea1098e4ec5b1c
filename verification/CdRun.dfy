/** Whole runs of the CD drive: any interleaving of media operations by the user and service calls
    for the guest. */
module CdRun {
  import opened CdLayout
  import opened CdTransfer
  import opened CdAnswers
  import opened CdDrive
  import opened CdTrace
  import opened CdLaws

  ghost predicate Possible(d: Drive, s: Step)
    requires d.store.volume.g.Valid()
    reads d.store.volume.card
  {
    && s.Sized()
    && match s
       case MountDisc(_, parse) => parse.Sound(d.store.volume.g, d.store.volume.card.sectors)
       case TryImage(parse) => parse.Sound(d.store.volume.g, d.store.volume.card.sectors)
       case _ => true
  }

  ghost function Snap(d: Drive): Shot
    reads d, d.even, d.odd, d.store.volume.card
  {
    Shot(d.unit, d.phase, d.generation, d.limit, d.attention, d.loaded, d.pending, d.locked, d.sense, d.current,
      d.TheDisc(), d.Waiting(), d.store.volume.card.healthy, d.Left(), d.output, d.reading, d.read)
  }

  lemma SnapSound(d: Drive)
    requires d.Valid()
    ensures Sound(Snap(d)) && d.current < 2 && d.phase < 3 && (d.reading ==> d.phase == 2)
  {
    hide Following;
    d.TracksKnown();
    if d.reading {
      FollowingPrefix(d.TheDisc(), d.TheCursor(), d.read);
    }
  }

  /** One turn of service. */
  method Serve(d: Drive, step: Step)
    requires d.Valid() && step.Service? && step.Sized()
    modifies d, d.store, d.store.cache, d.store.seekIndex, d.store.volume`fatBuffer, d.store.volume`fatIndex
    ensures d.Valid() && Turn(old(Snap(d)), step, Snap(d))
  {
    hide Snap, Turn, Commanded, Keeps, Serves;
    ghost var s := Snap(d);
    var handled := PollTurn(d, step);
    ServeIsTurn(s, step.(command := false), Snap(d));
    if !handled && step.command {
      ghost var m := Snap(d);
      CommandTurn(d, step);
      PollThenCommand(s, step, m, Snap(d));
    } else {
      PollOnly(s, step, Snap(d));
    }
  }

  method PollTurn(d: Drive, step: Step) returns (handled: bool)
    requires d.Valid() && step.Service? && step.Sized()
    modifies d, d.store, d.store.cache, d.store.seekIndex, d.store.volume`fatBuffer, d.store.volume`fatIndex
    ensures d.Valid() && Keeps(old(Snap(d)), Snap(d)) && Serves(old(Snap(d)), step.(command := false), Snap(d))
    ensures handled <==> Serving(old(Snap(d)), step)
    ensures !handled ==>
              d.phase == 0 && !Snap(d).pending && Snap(d).unit == old(Snap(d)).unit
              && Snap(d).output == old(Snap(d)).output
  {
    hide Keeps, Serves, Drive.Media, Drive.Transfer;
    if d.phase == 0 || step.state != d.generation {
      handled := PollAway(d, step);
    } else if step.expired {
      handled := PollExpired(d, step);
    } else if d.phase == 1 && step.hasPacket {
      handled := PollPacket(d, step);
    } else if if d.phase == 1 then !step.hasPacket else !step.wantsData {
      handled := PollStill(d, step);
    } else {
      handled := PollData(d, step);
    }
  }

  /** Nothing under way, or not any more. */
  method PollAway(d: Drive, step: Step) returns (handled: bool)
    requires d.Valid() && step.Service? && step.Sized() && !(d.phase != 0 && step.state == d.generation)
    modifies d, d.store, d.store.cache, d.store.seekIndex, d.store.volume`fatBuffer, d.store.volume`fatIndex
    ensures d.Valid() && Keeps(old(Snap(d)), Snap(d)) && Serves(old(Snap(d)), step.(command := false), Snap(d))
    ensures !handled && d.phase == 0 && !d.pending && d.unit == old(d.unit) && d.output == old(d.output)
  {
    hide Adds, AddsOnly, Moves, Dispatched, Sound, ErrorEvents, Drive.Media, Drive.Transfer, Drive.Left, Drive.Fate,
         Drive.Next, Drive.Answered, Drive.Moved, Keeps, Still, SameMedia, PacketCommand;
    SnapSound(d);
    NothingNew(d.output);
    ghost var s := Snap(d);
    handled := d.Poll(step.wantsData, step.hasPacket, step.state, step.expired, step.packet);
    AwayKeeps(s, Snap(d));
  }

  /** Out of time. */
  method PollExpired(d: Drive, step: Step) returns (handled: bool)
    requires d.Valid() && step.Service? && step.Sized() && d.phase != 0 && step.state == d.generation && step.expired
    modifies d, d.store, d.store.cache, d.store.seekIndex, d.store.volume`fatBuffer, d.store.volume`fatIndex
    ensures d.Valid() && Keeps(old(Snap(d)), Snap(d)) && Serves(old(Snap(d)), step.(command := false), Snap(d))
    ensures handled && Serving(old(Snap(d)), step)
  {
    hide Adds, AddsOnly, Moves, Dispatched, Sound, ErrorEvents, Drive.Media, Drive.Transfer, Drive.Left, Drive.Fate,
         Drive.Next, Drive.Answered, Drive.Moved, Keeps, Still, SameMedia, PacketCommand;
    SnapSound(d);
    ghost var s := Snap(d);
    handled := d.Poll(step.wantsData, step.hasPacket, step.state, step.expired, step.packet);
    AwayKeeps(s, Snap(d));
  }

  /** No packet, or no room for data: nothing happens. */
  method PollStill(d: Drive, step: Step) returns (handled: bool)
    requires d.Valid() && step.Service? && step.Sized() && d.phase != 0 && step.state == d.generation && !step.expired
    requires if d.phase == 1 then !step.hasPacket else !step.wantsData
    modifies d, d.store, d.store.cache, d.store.seekIndex, d.store.volume`fatBuffer, d.store.volume`fatIndex
    ensures d.Valid() && Keeps(old(Snap(d)), Snap(d)) && Serves(old(Snap(d)), step.(command := false), Snap(d))
    ensures handled && Serving(old(Snap(d)), step)
  {
    hide Adds, AddsOnly, Moves, Exchanged, Dispatched, Sound, Drive.Media, Drive.Transfer, Drive.Left, Keeps,
         Drive.Fate, Drive.Next, Drive.Answered, Drive.Moved, ErrorEvents, PacketCommand, Limit, Drive.TheDisc,
         Drive.Waiting;
    SnapSound(d);
    ghost var s := Snap(d);
    handled := d.Poll(step.wantsData, step.hasPacket, step.state, step.expired, step.packet);
    StillKeeps(s, Snap(d));
  }

  /** A packet. */
  method PollPacket(d: Drive, step: Step) returns (handled: bool)
    requires d.Valid() && step.Service? && step.Sized() && d.phase == 1 && step.state == d.generation && !step.expired
    requires step.hasPacket
    modifies d, d.store, d.store.cache, d.store.seekIndex, d.store.volume`fatBuffer, d.store.volume`fatIndex
    ensures d.Valid() && Keeps(old(Snap(d)), Snap(d)) && Serves(old(Snap(d)), step.(command := false), Snap(d))
    ensures handled && Serving(old(Snap(d)), step)
  {
    hide Adds, AddsOnly, Moves, Exchanged, Sound, Seen, ErrorEvents, Drive.Media, Drive.Transfer, Drive.Left,
         Drive.Moved, Decide, After, Keeps;
    SnapSound(d);
    ghost var s := Snap(d);
    handled := d.Poll(step.wantsData, step.hasPacket, step.state, step.expired, step.packet);
    SnapSound(d);
    PacketKeeps(s, step.packet, Snap(d));
  }

  /** Room for data. */
  method PollData(d: Drive, step: Step) returns (handled: bool)
    requires d.Valid() && step.Service? && step.Sized() && d.phase != 0 && d.phase != 1 && step.state == d.generation
    requires !step.expired && step.wantsData
    modifies d, d.store, d.store.cache, d.store.seekIndex, d.store.volume`fatBuffer, d.store.volume`fatIndex
    ensures d.Valid() && Keeps(old(Snap(d)), Snap(d)) && Serves(old(Snap(d)), step.(command := false), Snap(d))
    ensures handled && Serving(old(Snap(d)), step)
  {
    hide Adds, AddsOnly, Finished, PhaseSent, DataPhase, Disc.Valid, Disc.AllGood, Sound, ErrorEvents, Exchanged,
         Dispatched, Drive.Media, Drive.Transfer, Drive.Left, Drive.Fate, Drive.Next, Drive.Answered, Keeps;
    SnapSound(d);
    ghost var s := Snap(d);
    handled := d.Poll(step.wantsData, step.hasPacket, step.state, step.expired, step.packet);
    ErrorIsNoData(s.output, d.sense.0, d.Head());
    SnapSound(d);
    MovesKeeps(s, Snap(d));
  }

  method CommandTurn(d: Drive, step: Step)
    requires d.Valid() && d.phase == 0 && step.Service? && step.Sized()
    modifies d, d.store`cachedImage, d.store`cachedFile
    ensures d.Valid() && Commanded(old(Snap(d)), step, Snap(d))
  {
    hide Adds, AddsOnly, Disc.Valid, Disc.AllGood, Sound, Following, NoData, Reports, Drive.Media, Drive.Transfer,
         PacketCommand, Limit, ErrorLast, ErrorEvents;
    SnapSound(d);
    AddsGrow(d.output);
    CommandTest(step.tfr);
    ghost var s := Snap(d);
    d.Command(step.tfr, step.target, step.state, step.identity);
    ErrorIsLast(s.output, d.sense.0, d.Head());
  }

  // ---------------------------------------------------------------- media operations

  method MountTurn(d: Drive, step: Step)
    requires d.Valid() && step.MountDisc? && Possible(d, step)
    modifies d, d.even, d.odd, d.store`cachedImage, d.store`cachedFile
    ensures d.Valid() && Turn(old(Snap(d)), step, Snap(d))
  {
    hide Keeps, Serves, Drive.TheDisc, Drive.Waiting, Drive.Left, Drive.Media, Drive.Transfer, Disc.Valid, Parse.Sound,
         SameCue, Solution, Sound, Reports;
    SnapSound(d);
    ghost var s := Snap(d);
    ghost var p := [];
    if HasLayout(step.parse) {
      p :| Solution(step.parse.files, step.parse.tracks, p);
    }
    var reply := d.Mount(step.unit, step.parse, p);
    StillKeeps(s, Snap(d));
  }

  method EjectTurn(d: Drive, step: Step)
    requires d.Valid() && step.EjectDisc?
    modifies d, d.even, d.odd, d.store`cachedImage, d.store`cachedFile
    ensures d.Valid() && Turn(old(Snap(d)), step, Snap(d))
  {
    hide Keeps, Serves, Drive.TheDisc, Drive.Waiting, Drive.Left, Drive.Media, Drive.Transfer, Disc.Valid, Disc.AllGood,
         Sound, Reports;
    SnapSound(d);
    ghost var s := Snap(d);
    var reply := d.Eject(step.unit);
    StillKeeps(s, Snap(d));
  }

  method TryTurn(d: Drive, step: Step)
    requires d.Valid() && step.TryImage? && Possible(d, step)
    modifies d, d.even, d.odd
    ensures d.Valid() && Turn(old(Snap(d)), step, Snap(d))
  {
    hide Keeps, Serves, Drive.TheDisc, Drive.Waiting, Drive.Left, Drive.Media, Drive.Transfer, Disc.Valid, Parse.Sound,
         SameCue, Solution, Sound, Reports;
    SnapSound(d);
    ghost var s := Snap(d);
    var reply := d.ValidateImage(step.parse, []);
    StillKeeps(s, Snap(d));
  }

  method AttachTurn(d: Drive, step: Step)
    requires d.Valid() && step.Attach?
    modifies d, d.even, d.odd, d.store`cachedImage, d.store`cachedFile
    ensures d.Valid() && Turn(old(Snap(d)), step, Snap(d))
  {
    hide Keeps, Serves, Drive.Media, Drive.Transfer, Disc.Valid, Disc.AllGood, Sound, Reports, Adds;
    SnapSound(d);
    NothingNew(d.output);
    ghost var s := Snap(d);
    var ok := d.Configure(step.newUnit);
    if ok {
      OffKeeps(s, Snap(d));
    } else {
      StillKeeps(s, Snap(d));
    }
  }

  method RemoveTurn(d: Drive, step: Step)
    requires d.Valid() && step.Remove?
    modifies d, d.even, d.odd, d.store`cachedImage, d.store`cachedFile
    ensures d.Valid() && Turn(old(Snap(d)), step, Snap(d))
  {
    hide Keeps, Serves, Drive.Media, Drive.Transfer, Disc.Valid, Disc.AllGood, Sound, Reports, Adds;
    SnapSound(d);
    AddsGrow(d.output);
    ghost var s := Snap(d);
    d.Detach(step.unit, step.force);
    if d.unit == -1 && d.phase == 0 && !d.loaded && !d.pending && !d.locked && !d.reading {
      OffKeeps(s, Snap(d));
    } else {
      StillKeeps(s, Snap(d));
    }
  }

  // ---------------------------------------------------------------- runs

  method Perform(d: Drive, step: Step)
    requires d.Valid() && Possible(d, step)
    modifies d, d.even, d.odd, d.store, d.store.cache, d.store.seekIndex, d.store.volume`fatBuffer,
             d.store.volume`fatIndex
    ensures d.Valid() && Turn(old(Snap(d)), step, Snap(d))
  {
    hide Drive.Valid, Turn, Snap, Parse.Sound;
    match step {
      case Service(_, _, _, _, _, _, _, _, _) => Serve(d, step);
      case MountDisc(_, _) => MountTurn(d, step);
      case EjectDisc(_) => EjectTurn(d, step);
      case TryImage(_) => TryTurn(d, step);
      case Attach(_) => AttachTurn(d, step);
      case Remove(_, _) => RemoveTurn(d, step);
    }
  }

  /** Over every run: each step does what it may; every READ that is accepted, and every answer, delivers a beginning
      of its data, from the disc it was accepted for, until it delivers all of it or is cut off; a disc that comes in is
      the one mounted last, and is announced by a unit attention before the guest is told of it. */
  method Run(d: Drive, steps: seq<Step>) returns (ghost shots: seq<Shot>)
    requires d.Valid() && forall i :: 0 <= i < |steps| ==> Possible(d, steps[i])
    modifies d, d.even, d.odd, d.store, d.store.cache, d.store.seekIndex, d.store.volume`fatBuffer,
             d.store.volume`fatIndex
    ensures d.Valid() && IsRun(shots, steps) && shots[0] == old(Snap(d)) && shots[|steps|] == Snap(d)
    ensures ReadLaw(shots, steps) && AnswerLaw(shots, steps) && OriginLaw(shots, steps)
    ensures PhaseLaw(shots, steps)
    ensures NewDiscLaw(shots, steps) && ExchangeLaw(shots, steps) && SenseLaw(shots)
  {
    hide Drive.Valid, Turn, Snap, Parse.Sound, Sound, ReadLaw, AnswerLaw, OriginLaw, PhaseLaw, NewDiscLaw, ExchangeLaw,
         SenseLaw;
    SnapSound(d);
    shots := [Snap(d)];
    var i := 0;
    while i < |steps|
      invariant i <= |steps| && d.Valid() && |shots| == i + 1 && shots[0] == old(Snap(d)) && shots[i] == Snap(d)
      invariant d.store.volume.card.sectors == old(d.store.volume.card.sectors)
      invariant forall k :: 0 <= k < i ==> steps[k].Sized() && Turn(shots[k], steps[k], shots[k + 1])
      invariant forall k :: 0 <= k <= i ==> Sound(shots[k])
    {
      Perform(d, steps[i]);
      SnapSound(d);
      shots := shots + [Snap(d)];
      i := i + 1;
    }
    RunReads(shots, steps);
    RunAnswers(shots, steps);
    RunPhases(shots, steps);
    RunOrigins(shots, steps);
    RunNewDiscs(shots, steps);
    RunExchanges(shots, steps);
    RunSense(shots, steps);
  }
}
