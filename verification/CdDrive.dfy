/** The ATAPI drive: a packet-command phase machine over two image slots, with live disc exchange. */
module CdDrive {
  import opened Basics
  import opened Storage
  import opened CdTypes
  import opened CdLayout
  import opened CdSeek
  import opened CdRead
  import opened CdTransfer
  import opened CdAnswers

  class Drive {
    const store: SeekCache
    const even: CDImage
    const odd: CDImage
    var current: nat
    var unit: int
    var loaded: bool
    var pending: bool
    var locked: bool
    var attention: nat
    var sense: (nat, nat, nat)
    var buffer: seq<byte>
    var phase: nat
    var limit: nat
    var length: nat
    var position: nat
    var generation: nat
    var lba: nat
    var remaining: nat
    /** Everything written to the guest. */
    var output: seq<Event>
    /** The READ in progress, and whether the guest has been told of the disc now in the drive. */
    ghost var reading: bool
    ghost var read: Progress
    ghost var unreported: bool

    function Image(slot: int): CDImage {
      if slot == 0 then even else odd
    }

    /** A slot that may be put in the drive: empty, or laid out over files on the card. */
    ghost predicate Usable(image: CDImage)
      requires store.volume.g.Valid()
      reads store.volume.card, image
    {
      image.blocks == 0 ||
      (LaidOut(image.files, image.tracks, image.blocks) && image.OnCard(store.volume.g, store.volume.card.sectors))
    }

    /** The disc in the drive, and the one waiting, are empty or laid out; the seek cache only ever
        serves the disc in the drive; and a disc the guest has not heard of stands behind a pending
        unit attention. */
    ghost predicate Media()
      reads `current, `pending, `loaded, `unreported, `attention
      reads store, store.cache, store.seekIndex, store.volume, store.volume.card, even, odd, store.cachedImage
    {
      && even != odd
      && current < 2
      && store.Valid()
      && store.cachedImage in {null, Image(current)}
      && Usable(Image(current))
      && (pending ==> Usable(Image(1 - current)))
      && (loaded ==> Image(current).blocks > 0)
      && (loaded && unreported ==> attention != 0)
    }

    /** The transfer state is consistent, and a READ in progress is where its data say. */
    ghost predicate Transfer()
      requires store.volume.g.Valid()
      reads `phase, `reading, `read, `remaining, `lba, `limit, `position, `length, `buffer, `current, `unreported
      reads store.volume.card, even, odd
    {
      && phase < 3
      && (phase == 2 ==> position <= length <= |buffer|)
      && (phase != 0 ==> 2 <= limit <= USER && limit % 2 == 0)
      && (phase == 2 && !reading ==> remaining == 0 && position < length)
      && (reading ==> phase == 2 && InRead())
    }

    ghost predicate Valid()
      reads this, store, store.cache, store.seekIndex, store.volume, store.volume.card, even, odd, store.cachedImage
    {
      Media() && Transfer()
    }

    ghost function TheDisc(): Disc
      reads `current, store.volume.card, even, odd
    {
      Disc(store.volume.g, store.volume.card.sectors, Image(current).files, Image(current).tracks,
        Image(current).blocks)
    }

    /** The disc that comes in at the next exchange. */
    ghost function Waiting(): Disc
      reads `current, store.volume.card, even, odd
    {
      Disc(store.volume.g, store.volume.card.sectors, Image(1 - current).files, Image(1 - current).tracks,
        Image(1 - current).blocks)
    }

    ghost function TheCursor(): Cursor
      reads `remaining, `lba, `limit, `position, `length, `buffer
    {
      Cursor(lba, remaining, limit, length, position, buffer)
    }

    /** The READ in progress is on the disc in the drive, which the guest knows of. */
    ghost predicate InRead()
      requires store.volume.g.Valid()
      reads `read, `remaining, `lba, `limit, `position, `length, `buffer, `current, `unreported
      reads store.volume.card, even, odd
    {
      && !unreported
      && TheDisc().Valid()
      && Following(TheDisc(), TheCursor(), read)
      && (position == length ==> remaining > 0)
    }

    /** What a packet may change. */
    ghost function Stand(): Standing
      reads `attention, `loaded, `locked, `sense
    {
      Standing(attention, loaded, locked, sense)
    }

    /** What is still to be sent of an answer. */
    ghost function Left(): seq<byte>
      reads `phase, `reading, `position, `length, `buffer
    {
      if phase == 2 && !reading && position <= length <= |buffer| then buffer[position..length] else []
    }

    /** The disc in the drive decides what becomes of a packet. */
    ghost function Fate(packet: seq<byte>): Verdict
      requires |packet| == 12 && (loaded ==> Image(current).tracks != [])
      reads `attention, `loaded, `locked, `sense, `current, even, odd
    {
      Decide(packet, Stand(), Image(current).tracks, Image(current).blocks)
    }

    ghost function Next(packet: seq<byte>): Standing
      requires |packet| == 12 && (loaded ==> Image(current).tracks != [])
      reads `attention, `loaded, `locked, `sense, `current, even, odd
    {
      After(packet, Stand(), Image(current).tracks, Image(current).blocks)
    }

    /** The guest has been told this of a packet, and a transfer has begun if it starts one. */
    ghost predicate Answered(v: Verdict, was: seq<Event>)
      reads `output, `phase, `reading, `read, `position, `length, `buffer, `unit
    {
      && output == was + Seen(v, Head())
      && phase == (if v.Answers? || v.Reads? then 2 else 0)
      && (reading <==> v.Reads?) && (v.Reads? ==> read == Progress(v.first, v.count, [], []))
      && Left() == (if v.Answers? then v.bytes else [])
    }

    lemma TracksKnown()
      requires Valid()
      ensures loaded ==> Image(current).tracks != [] && Image(current).blocks > 0 && TheDisc().Valid()
      ensures TheDisc().blocks > 0 ==> TheDisc().Valid()
      ensures pending && Waiting().blocks > 0 ==> Waiting().Valid()
    {
    }

    constructor (store: SeekCache, even: CDImage, odd: CDImage)
      requires store.Valid() && store.cachedImage == null && even != odd
      requires even.blocks == 0 && odd.blocks == 0
      ensures Valid() && unit == -1 && !loaded && !pending && !locked && attention == 0 && sense == (0, 0, 0)
      ensures phase == 0 && current == 0 && output == [] && !reading && !unreported
      ensures this.store == store && this.even == even && this.odd == odd
    {
      this.store, this.even, this.odd := store, even, odd;
      current, unit, loaded, pending, locked, attention := 0, -1, false, false, false, 0;
      sense, buffer := (0, 0, 0), [];
      phase, limit, length, position, generation, lba, remaining := 0, 0, 0, 0, 0, 0, 0;
      output := [];
      reading, read, unreported := false, Progress(0, 0, [], []), false;
    }

    function Head(): nat
      reads `unit
    {
      HeadOf(unit)
    }

    // -------------------------------------------------------------- command completion

    method Complete()
      requires Valid()
      modifies `phase, `output, `reading
      ensures Valid() && phase == 0 && !reading
      ensures output == old(output) + [TaskFile(0, 3, 0, 0, 0, Head()), Status({End, Irq})]
      ensures Answered(Completed, old(output))
    {
      hide InRead, Usable, SeekCache.Valid;
      output := output + [TaskFile(0, 3, 0, 0, 0, Head()), Status({End, Irq})];
      phase, reading := 0, false;
    }

    method Fail(key: nat, asc: nat, ascq: nat)
      requires Valid() && key < 16
      modifies `phase, `output, `reading, `sense
      ensures Valid() && phase == 0 && !reading && sense == (key, asc, ascq)
      ensures output == old(output) + ErrorEvents(key, Head()) && Answered(Refused(key, asc, ascq), old(output))
    {
      hide InRead, Usable, SeekCache.Valid;
      sense := (key, asc, ascq);
      output := output + ErrorEvents(key, Head());
      phase, reading := 0, false;
    }

    /** `ready`: a pending unit attention is reported once, before anything is said of the disc. */
    method CheckReady() returns (ok: bool)
      requires Valid() && phase == 1
      modifies `phase, `output, `reading, `sense, `attention, `unreported
      ensures Valid()
      ensures ok <==> old(attention) == 0 && loaded
      ensures ok ==> phase == 1 && output == old(output) && !unreported && sense == old(sense) && attention == 0
      ensures !ok ==> phase == 0 && !reading && attention == 0
      ensures !ok ==> output == old(output) + ErrorEvents(if old(attention) != 0 then 6 else 2, Head())
      ensures old(attention) == 0 ==> unreported == old(unreported)
      ensures old(attention) != 0 ==> sense == (6, old(attention), 0) && !unreported
      ensures old(attention) == 0 && !loaded ==> sense == (2, 0x3a, 0)
      ensures !ok ==> Answered(Refused(sense.0, sense.1, sense.2), old(output))
    {
      hide InRead, Usable, SeekCache.Serves;
      if attention != 0 {
        var changed := attention;
        Fail(6, changed, 0);
        attention, unreported := 0, false;
        return false;
      }
      if !loaded {
        Fail(2, 0x3a, 0);
        return false;
      }
      return true;
    }

    /** `commit`: exchange the discs between commands. */
    method Commit()
      requires Valid()
      modifies `current, `loaded, `pending, `attention, `unreported, store`cachedImage, store`cachedFile
      ensures Valid()
      ensures old(pending) && phase == 0 ==>
                && current == 1 - old(current) && !pending && attention == 0x28
                && (loaded <==> Image(current).blocks > 0)
                && store.cachedImage == null && unreported
      ensures !old(pending) || phase != 0 ==>
                && current == old(current) && pending == old(pending) && loaded == old(loaded)
                && attention == old(attention) && unreported == old(unreported)
                && store.cachedImage == old(store.cachedImage)
    {
      hide InRead, Usable, SeekCache.Serves;
      if !pending || phase != 0 {
        return;
      }
      current := 1 - current;
      loaded := Image(current).blocks != 0;
      pending := false;
      attention, unreported := 0x28, true;
      store.Invalidate();
    }

    // -------------------------------------------------------------- packets

    /** `response`: offer as much of a prepared answer as the guest allows. */
    method Respond(payload: seq<byte>, allocation: nat)
      requires Valid() && phase == 1
      modifies `phase, `output, `reading, `buffer, `length, `position, `remaining
      ensures Valid() && Answered(Offer(payload, allocation), old(output))
    {
      hide InRead, Usable, SeekCache.Valid, Media;
      buffer := payload;
      length := if |payload| < allocation then |payload| else allocation;
      position, remaining := 0, 0;
      if length == 0 {
        Complete();
        return;
      }
      output := output + [Status({Ready, Packet})];
      phase := 2;
    }

    /** READ(10) and READ(12): refuse a range beyond the disc, else arm the transfer. */
    method StartRead(first: nat, count: nat)
      requires Valid() && phase == 1 && !unreported && loaded
      modifies `phase, `output, `reading, `sense, `length, `position, `remaining, `lba, `read
      ensures Valid()
      ensures Answered(if first + count > Image(current).blocks then Refused(5, 0x21, 0)
                       else if count == 0 then Completed else Reads(first, count), old(output))
      ensures sense == if first + count > Image(current).blocks then (5, 0x21, 0) else old(sense)
    {
      hide SeekCache.Serves, Usable, InRead;
      lba, remaining := first, count;
      if lba > Image(current).blocks || remaining > Image(current).blocks - lba {
        Fail(5, 0x21, 0);
        return;
      }
      if remaining == 0 {
        Complete();
        return;
      }
      Arm();
    }

    method Arm()
      requires Valid() && phase == 1 && !unreported && loaded && 0 < remaining
      requires lba + remaining <= Image(current).blocks
      modifies `phase, `output, `reading, `length, `position, `read
      ensures Valid() && Answered(Reads(lba, remaining), old(output))
    {
      hide Media, SeekCache.Valid, Usable, InRead, TheDisc;
      ArmFacts();
      length, position := 0, 0;
      phase := 2;
      reading, read := true, Progress(lba, remaining, [], []);
      output := output + [Status({Ready, Packet})];
      FreshRead();
    }

    lemma ArmFacts()
      requires Valid() && phase == 1
      ensures Media() && store.volume.g.Valid() && Usable(Image(current)) && 2 <= limit <= USER && limit % 2 == 0
    {
      hide Usable, SeekCache.Serves, InRead;
    }

    lemma FreshRead()
      requires store.volume.g.Valid() && Usable(Image(current)) && !unreported && 2 <= limit <= USER && limit % 2 == 0
      requires 0 < remaining && lba + remaining <= Image(current).blocks
      requires position == length == 0 && read == Progress(lba, remaining, [], [])
      ensures InRead()
    {
      hide LaidOut, Following;
      StartFollowing(TheDisc(), TheCursor(), read);
    }

    /** REQUEST SENSE: the sense data, once. */
    method RequestSense(packet: seq<byte>)
      requires Valid() && phase == 1 && |packet| == 12
      modifies `phase, `output, `reading, `sense, `buffer, `length, `position, `remaining
      ensures Valid()
      ensures Answered(if packet[1] % 2 == 1 then BadField else Offer(SenseData(old(sense)), packet[4]), old(output))
      ensures sense == if packet[1] % 2 == 1 then (5, 0x24, 0) else (0, 0, 0)
    {
      hide InRead, Usable, SeekCache.Valid, Media, ErrorEvents, SenseData, Answered, Offer;
      if packet[1] % 2 == 1 {
        Fail(5, 0x24, 0);
        return;
      }
      var answer := SenseData(sense);
      sense := (0, 0, 0);
      Respond(answer, packet[4]);
    }

    /** `toc`. */
    method SendToc(packet: seq<byte>)
      requires Valid() && phase == 1 && |packet| == 12 && loaded
      modifies `phase, `output, `reading, `sense, `buffer, `length, `position, `remaining
      ensures Valid() && Image(current).tracks != []
      ensures var v := Toc(packet, Image(current).tracks, Image(current).blocks);
              Answered(v, old(output)) && sense == if v.Refused? then (v.key, v.asc, v.ascq) else old(sense)
    {
      hide InRead, Usable, SeekCache.Valid, Media, ErrorEvents, TocAsked, TocPage, Answered, Be16;
      TracksKnown();
      var ok, page := BuildToc(packet, Image(current).tracks, Image(current).blocks);
      if !ok {
        Fail(5, 0x24, 0);
        return;
      }
      Respond(page, Be16(packet[7], packet[8]));
    }

    /** `mode_sense`. */
    method SendModes(packet: seq<byte>)
      requires Valid() && phase == 1 && |packet| == 12
      modifies `phase, `output, `reading, `sense, `buffer, `length, `position, `remaining
      ensures Valid()
      ensures var v := ModeSense(packet, locked);
              Answered(v, old(output)) && sense == if v.Refused? then (v.key, v.asc, v.ascq) else old(sense)
    {
      hide InRead, Usable, SeekCache.Valid, Media, ErrorEvents, ModeAsked, ModePage, Answered, Be16;
      if !ModeAsked(packet) {
        Fail(5, 0x24, 0);
        return;
      }
      Respond(ModePage(packet[0] == 0x5a, packet[2] % 64, packet[2] / 64 == 1, locked), ModeAllocation(packet));
    }

    /** `dispatch`. */
    method Dispatch(packet: seq<byte>)
      requires Valid() && phase == 1 && |packet| == 12
      modifies `phase, `output, `reading, `sense, `attention, `unreported, `buffer, `length, `position, `remaining,
               `lba, `read, `loaded, `locked, store`cachedImage, store`cachedFile
      ensures Valid() && old(loaded ==> Image(current).tracks != [])
      ensures Answered(old(Fate(packet)), old(output)) && Stand() == old(Next(packet))
      ensures unreported && !old(unreported) ==> attention == 0x28 && packet[0] == 0x1b
      ensures old(unreported) && !unreported ==> old(attention) != 0 && sense == (6, old(attention), 0)
    {
      hide InRead, Usable, SeekCache.Serves, Be32, Be16, Media, Ordered, Answered;
      TracksKnown();
      var op := packet[0];
      buffer := [];
      if packet[1] / 32 != 0 {
        Fail(5, 0x25, 0);
        return;
      }
      if op in {0, 0x25, 0x43, 0x28, 0xa8} {
        var ok := CheckReady();
        if !ok {
          return;
        }
      }
      Execute(packet);
    }

    /** The command of a packet that passed those tests. */
    method Execute(packet: seq<byte>)
      requires Valid() && phase == 1 && |packet| == 12 && packet[1] / 32 == 0
      requires NeedsDisc(packet[0]) ==> attention == 0 && loaded && !unreported
      modifies `phase, `output, `reading, `sense, `attention, `unreported, `buffer, `length, `position, `remaining,
               `lba, `read, `loaded, `locked, store`cachedImage, store`cachedFile
      ensures Valid() && old(loaded ==> Image(current).tracks != [])
      ensures Answered(old(Fate(packet)), old(output)) && Stand() == old(Next(packet))
      ensures unreported != old(unreported) ==> attention == 0x28 && packet[0] == 0x1b && unreported
    {
      hide InRead, Usable, SeekCache.Serves, Media, Answered, Decide, After;
      TracksKnown();
      var op := packet[0];
      if op == 0x28 || op == 0xa8 {
        Read(packet);
      } else if op == 0x1b {
        StartStop(packet);
      } else if op == 0x1e {
        Lock(packet);
      } else {
        Inform(packet);
      }
    }

    /** READ(10) and READ(12). */
    method Read(packet: seq<byte>)
      requires Valid() && phase == 1 && |packet| == 12 && packet[0] in {0x28, 0xa8} && packet[1] / 32 == 0
      requires attention == 0 && loaded && !unreported
      modifies `phase, `output, `reading, `sense, `length, `position, `remaining, `lba, `read
      ensures Valid() && old(loaded ==> Image(current).tracks != [])
      ensures Answered(old(Fate(packet)), old(output)) && Stand() == old(Next(packet))
    {
      hide Toc, ModeSense, SenseData, InquiryData, Put32, InRead, Usable, SeekCache.Serves, Media, Be32, Be16, Answered;
      TracksKnown();
      if packet[1] % 8 != 0 {
        Fail(5, 0x24, 0);
      } else {
        StartRead(Be32(packet[2], packet[3], packet[4], packet[5]), Requested(packet));
      }
    }

    /** PREVENT ALLOW MEDIUM REMOVAL. */
    method Lock(packet: seq<byte>)
      requires Valid() && phase == 1 && |packet| == 12 && packet[0] == 0x1e && packet[1] / 32 == 0
      modifies `phase, `output, `reading, `sense, `locked
      ensures Valid() && old(loaded ==> Image(current).tracks != [])
      ensures Answered(old(Fate(packet)), old(output)) && Stand() == old(Next(packet))
    {
      hide Toc, ModeSense, SenseData, InquiryData, Put32, InRead, Usable, SeekCache.Serves, Media, Answered;
      TracksKnown();
      if packet[4] / 2 != 0 {
        Fail(5, 0x24, 0);
      } else {
        locked := packet[4] % 2 == 1;
        Complete();
      }
    }

    /** The packets that only ask for information. */
    method Inform(packet: seq<byte>)
      requires Valid() && phase == 1 && |packet| == 12 && packet[1] / 32 == 0
      requires packet[0] !in {0x28, 0xa8, 0x1b, 0x1e} && (NeedsDisc(packet[0]) ==> attention == 0 && loaded)
      modifies `phase, `output, `reading, `sense, `buffer, `length, `position, `remaining
      ensures Valid() && old(loaded ==> Image(current).tracks != [])
      ensures Answered(old(Fate(packet)), old(output)) && Stand() == old(Next(packet))
    {
      hide InRead, Usable, SeekCache.Serves, Be32, Be16, Media, Toc, ModeSense, Answered, Offer, SenseData, InquiryData,
           Put32;
      TracksKnown();
      var op := packet[0];
      if op == 0 {
        sense := (0, 0, 0);
        Complete();
      } else if op == 3 {
        RequestSense(packet);
      } else if op == 0x12 {
        if packet[1] % 4 != 0 || packet[2] != 0 {
          Fail(5, 0x24, 0);
        } else {
          Respond(InquiryData(), packet[4]);
        }
      } else if op == 0x25 {
        if Be32(packet[2], packet[3], packet[4], packet[5]) != 0 || packet[8] != 0 {
          Fail(5, 0x24, 0);
        } else {
          Respond(Put32(Image(current).blocks - 1) + Put32(2048), 8);
        }
      } else if op == 0x43 {
        SendToc(packet);
      } else if op == 0x1a || op == 0x5a {
        SendModes(packet);
      } else {
        Fail(5, 0x20, 0);
      }
    }

    /** START STOP UNIT: the guest opens or closes the tray. */
    method StartStop(packet: seq<byte>)
      requires Valid() && phase == 1 && |packet| == 12 && packet[0] == 0x1b && packet[1] / 32 == 0
      modifies `phase, `output, `reading, `sense, `attention, `unreported, `loaded, store`cachedImage, store`cachedFile
      ensures Valid() && old(loaded ==> Image(current).tracks != [])
      ensures Answered(old(Fate(packet)), old(output)) && Stand() == old(Next(packet))
      ensures loaded != old(loaded) ==> unreported && attention == 0x28 && store.cachedImage == null
      ensures loaded == old(loaded) ==> unreported == old(unreported) && attention == old(attention)
      ensures loaded && !old(loaded) ==> Image(current).blocks > 0 && packet[4] == 3
      ensures !loaded && old(loaded) ==> packet[4] == 2 && !locked
      ensures packet[4] == 2 && packet[1] < 2 ==> if locked then sense == (5, 0x53, 2) else !loaded
      ensures packet[4] == 3 && packet[1] < 2 ==> (loaded <==> old(loaded) || Image(current).blocks > 0)
    {
      hide Toc, ModeSense, SenseData, InquiryData, Put32, InRead, Usable, SeekCache.Serves, SeekCache.Valid, Transfer,
           Answered;
      TracksKnown();
      if packet[4] / 4 != 0 || packet[1] / 2 != 0 {
        Fail(5, 0x24, 0);
        return;
      }
      if packet[4] / 2 % 2 == 1 && packet[4] % 2 == 0 {
        if locked {
          Fail(5, 0x53, 2);
          return;
        }
        if loaded {
          MoveTray(false);
        }
      } else if packet[4] % 4 == 3 && Image(current).blocks != 0 && !loaded {
        MoveTray(true);
      }
      Complete();
    }

    /** The disc goes in or out: the guest has to be told. */
    method MoveTray(inside: bool)
      requires Valid() && phase == 1 && (inside ==> Image(current).blocks != 0)
      modifies `loaded, `attention, `unreported, store`cachedImage, store`cachedFile
      ensures Valid() && loaded == inside && unreported && attention == 0x28 && store.cachedImage == null
    {
      hide InRead, Usable, SeekCache.Serves;
      loaded := inside;
      attention, unreported := 0x28, true;
      store.Invalidate();
    }

    // -------------------------------------------------------------- data phases

    /** The next block of a READ into the buffer. The range error of CDImageRead cannot occur. */
    method FetchBlock() returns (ok: bool)
      requires Valid() && reading && position == length
      modifies `phase, `output, `reading, `sense, `buffer, `length, `position, `remaining, `lba
      modifies store, store.cache, store.seekIndex, store.volume`fatBuffer, store.volume`fatIndex
      ensures Valid()
      ensures ok ==> sense == old(sense)
      ensures ok ==>
                reading && position == 0 && length == USER && remaining == old(remaining) - 1 && output == old(output)
      ensures !ok ==> phase == 0 && !reading && sense in {(5, 0x64, 0), (3, 0x11, 0)}
      ensures !ok ==> output == old(output) + ErrorEvents(sense.0, Head())
      ensures store.volume.card.healthy ==> (ok <==> old(TheDisc().Block(lba).0.Good?))
    {
      hide SeekCache.Serves, SeekCache.Valid, Usable, Following, LaidOut, Block, CDImage.OnCard, Transfer, InRead,
           TheDisc, NoData, Media, Disc.Block;
      OnDisc();
      ghost var d, c := TheDisc(), Cursor(lba, remaining, limit, length, position, buffer);
      var result, data := LoadBlock();
      ok := result.Good?;
      if !ok {
        if result.WrongMode? {
          Fail(5, 0x64, 0);
        } else {
          Fail(3, 0x11, 0);
        }
        return;
      }
      TakeIn(data, d, c);
    }

    /** A good block into the buffer. */
    method TakeIn(data: seq<byte>, ghost d: Disc, ghost c: Cursor)
      requires Valid() && phase == 2 && reading && position == length && !unreported
      requires d == TheDisc() && c == Cursor(lba, remaining, limit, length, position, buffer)
      requires d.Valid() && Following(d, c, read) && d.Block(lba) == (Good, data)
      modifies `buffer, `length, `position, `remaining, `lba
      ensures Valid() && position == 0 && length == USER && remaining == old(remaining) - 1
    {
      hide SeekCache.Serves, SeekCache.Valid, Usable, Following, LaidOut, Block, CDImage.OnCard, InRead, TheDisc,
           NoData, Media, Disc.Block;
      SendFacts();
      TakeBlock(d, c, read);
      lba, remaining := lba + 1, remaining - 1;
      position, length, buffer := 0, USER, data;
      Resume();
    }

    /** The block under the cursor, through the seek cache. */
    method LoadBlock() returns (result: Outcome, data: seq<byte>)
      requires Valid() && reading && position == length
      modifies store, store.cache, store.seekIndex, store.volume`fatBuffer, store.volume`fatIndex
      ensures Valid() && TheDisc() == old(TheDisc()) && TheDisc().Valid()
      ensures !result.OutOfRange?
      ensures !result.IoError? ==> (result, data) == TheDisc().Block(lba)
      ensures store.volume.card.healthy ==> !result.IoError?
    {
      hide SeekCache.Serves, SeekCache.Valid, Usable, Following, LaidOut, Block, CDImage.OnCard, Transfer, InRead;
      OnDisc();
      result, data := ReadBlock(store, Image(current), lba);
    }

    lemma OnDisc()
      requires Valid() && reading && position == length
      ensures Image(current).OnCard(store.volume.g, store.volume.card.sectors)
      ensures LaidOut(Image(current).files, Image(current).tracks, Image(current).blocks)
      ensures TheDisc().Valid() && lba < Image(current).blocks && !unreported && phase == 2
      ensures TheDisc().Block(lba) ==
                Block(store.volume.g, store.volume.card.sectors, Image(current).files, Image(current).tracks, lba)
      ensures Following(TheDisc(), Cursor(lba, remaining, limit, length, position, buffer), read)
    {
      hide Following, Block, IsLayout, Parsed;
      if reading {
        BlockInRange(TheDisc(), TheCursor(), read);
      }
    }

    lemma VolumeKnown()
      requires Valid()
      ensures store.volume.Valid() && store.volume.g.Valid() && store.seekIndex.Length == SeekIndex.ENTRIES
      ensures even != odd
    {
    }

    /** One data phase to the guest; the last one of the command carries END. */
    method SendData()
      requires Valid() && phase == 2 && position < length
      modifies `phase, `output, `reading, `position, `read
      ensures Valid()
      ensures position == old(position) + Least(old(length - position), limit)
      ensures (phase == 0 <==> position == length && remaining == 0) && (phase == 0 || phase == 2)
      ensures output == old(output) + DataPhase(buffer[old(position)..position], phase == 0, Head())
      ensures reading <==> old(reading) && phase == 2
      ensures old(reading) ==> read == old(read).Sent(buffer[old(position)..position])
      ensures old(reading) && phase == 0 ==> TheDisc().Valid() && Finished(TheDisc(), limit, read)
    {
      hide *;
      SendFacts();
      var bytes := length - position;
      if bytes > limit {
        bytes := limit;
      }
      var last := position + bytes == length && remaining == 0;
      PhaseAccounted(bytes);
      ghost var sent := read.Sent(buffer[position..position + bytes]);
      output := output + DataPhase(buffer[position..position + bytes], last, Head());
      position := position + bytes;
      if reading {
        read := sent;
      }
      if last {
        phase, reading := 0, false;
      }
      Resume();
    }

    /** The next block to fetch is one of those asked for. */
    lemma NextAsked()
      requires Valid() && phase == 2
      ensures reading && position == length && TheDisc().Valid() && TheDisc().AllGood(read.first, read.count) ==>
                TheDisc().Block(lba).0.Good?
    {
      hide Disc.Block, Disc.Valid;
    }

    lemma SendFacts()
      requires Valid() && phase == 2
      ensures Media() && store.volume.g.Valid() && Transfer()
      ensures position <= length <= |buffer| && 2 <= limit <= USER && limit % 2 == 0
      ensures !reading ==> remaining == 0
      ensures position == length ==> reading && remaining > 0
      ensures Least(length - position, limit) == if length - position > limit then limit else length - position
    {
    }

    lemma Resume()
      requires Media() && store.volume.g.Valid()
      requires 2 <= limit <= USER && limit % 2 == 0 && position <= length <= |buffer|
      requires (phase == 0 && !reading) || phase == 2
      requires phase == 2 && !reading ==> remaining == 0 && position < length
      requires reading ==> !unreported && TheDisc().Valid()
                           && Following(TheDisc(), Cursor(lba, remaining, limit, length, position, buffer), read)
                           && (position == length ==> remaining > 0)
      ensures Valid()
    {
      hide Media, Following, LaidOut;
    }

    lemma PhaseAccounted(bytes: nat)
      requires store.volume.g.Valid() && Transfer()
      requires phase == 2 && position < length && bytes == Least(length - position, limit)
      ensures reading ==>
                && !unreported && TheDisc().Valid()
                && Following(TheDisc(), Cursor(lba, remaining, limit, length, position + bytes, buffer),
                  read.Sent(buffer[position..position + bytes]))
                && (position + bytes == length && remaining == 0 ==>
                      Finished(TheDisc(), limit, read.Sent(buffer[position..position + bytes])))
    {
      hide Following, LaidOut, Finished;
      if reading {
        SendPhase(TheDisc(), TheCursor(), read, bytes);
      }
    }

    /** `CDPoll`: abandon a transfer the guest has replaced or let expire, else take the packet or move
        one data phase. Returns false when the drive is idle, after exchanging discs if one waits. */
    method Poll(wantsData: bool, hasPacket: bool, state: nat, expired: bool, packet: seq<byte>)
      returns (handled: bool)
      requires Valid() && |packet| == 12
      modifies `current, `loaded, `pending, `attention, `unreported, `phase, `output, `reading, `sense, `locked,
               `buffer, `length, `position, `remaining, `lba, `read
      modifies store, store.cache, store.seekIndex, store.volume`fatBuffer, store.volume`fatIndex
      ensures Valid()
      ensures handled <==> old(phase) != 0 && state == old(generation)
      ensures !handled ==> phase == 0 && !reading && output == old(output)
      ensures handled && expired ==> phase == 0 && !reading && output == old(output) + ErrorEvents(0xb, Head())
      ensures handled && !expired ==> current == old(current) && pending == old(pending)
      ensures !(handled && !expired) && old(pending) ==>
                current == 1 - old(current) && !pending && attention == 0x28 && (loaded <==> Image(current).blocks > 0)
      ensures !handled && old(pending) ==> unreported
      ensures !(handled && !expired) ==> !pending
      ensures !handled ==> locked == (old(locked) && !(old(phase) != 0 && state / 64 % 2 == 1))
      ensures handled && expired ==> locked == old(locked)
      ensures handled && !expired && (if old(phase) == 1 then !hasPacket else !wantsData) ==>
                && phase == old(phase) && reading == old(reading) && read == old(read) && output == old(output)
                && Stand() == old(Stand()) && Left() == old(Left())
      ensures handled && !expired && old(phase) == 1 && hasPacket ==>
                && old(loaded ==> Image(current).tracks != [])
                && Answered(old(Fate(packet)), old(output)) && Stand() == old(Next(packet))
      ensures handled && !expired && old(phase) == 2 && wantsData ==>
                && (phase == 0 || phase == 2) && loaded == old(loaded) && attention == old(attention)
                && locked == old(locked)
                && Moved(old(reading), old(read), old(Left()), old(output), phase == 0)
                && (sense == old(sense) || output == old(output) + ErrorEvents(sense.0, Head()))
      ensures handled && !expired && old(phase) == 2 && wantsData && old(reading) && store.volume.card.healthy
              && old(TheDisc().Valid() && TheDisc().AllGood(read.first, read.count)) ==>
                read != old(read)
      ensures !handled ==> sense == old(sense) || sense == (0xb, 0x47, 0)
      ensures handled && expired ==> sense == (0xb, 0x47, 0)
      ensures !(handled && !expired) && !old(pending) ==> current == old(current) && loaded == old(loaded)
      ensures !(handled && !expired) && attention == 0 ==> old(attention) == 0
      ensures attention == 0 ==> old(attention) == 0 || output == old(output) + ErrorEvents(6, Head())
      ensures loaded && !(old(loaded) && current == old(current)) ==> attention != 0
      ensures old(unreported) && !unreported ==> sense == (6, old(attention), 0) && old(attention) != 0
      ensures old(phase) == 2 && sense.0 == 5 && sense.1 == 0x21 ==> sense == old(sense)
    {
      hide SeekCache.Serves, SeekCache.Valid, Usable, InRead, Finished, DataPhase, ReadAccepted, Media, Adds, TheDisc,
           Disc.Valid, ErrorEvents, Moved, Answered, Decide, After;
      if phase == 0 {
        Commit();
        return false;
      }
      if state != generation {
        Abandon(state / 64 % 2 == 1);
        Commit();
        return false;
      }
      handled := true;
      if expired {
        Fail(0xb, 0x47, 0);
        Commit();
        return;
      }
      if phase == 1 {
        if hasPacket {
          Reported(packet);
          ghost var v := Fate(packet);
          Dispatch(packet);
          AnsweredOutput(v, old(output));
        }
        return;
      }
      if wantsData {
        MoveData();
      }
    }

    /** A packet discharges a unit attention only by reporting it, and brings a disc in only behind one. */
    lemma Reported(packet: seq<byte>)
      requires Valid() && |packet| == 12
      ensures loaded ==> Image(current).tracks != []
      ensures Next(packet).attention == 0 && attention != 0 ==>
                Seen(Fate(packet), Head()) == ErrorEvents(6, Head())
      ensures Next(packet).loaded && !loaded ==> Next(packet).attention != 0
    {
      hide Media, Transfer, Ordered;
      TracksKnown();
    }

    lemma AnsweredOutput(v: Verdict, was: seq<Event>)
      requires Answered(v, was)
      ensures output == was + Seen(v, Head())
    {
    }

    /** One data phase of the transfer under way went out, or its READ failed. */
    ghost predicate Moved(was: bool, before: Progress, left: seq<byte>, e: seq<Event>, last: bool)
      reads this, store.volume.card, even, odd
    {
      && (!was ==>
            var n := Least(|left|, limit);
            && !reading && limit > 0 && 0 < n && output == e + DataPhase(left[..n], last, Head())
            && (last <==> n == |left|) && Left() == left[n..])
      && (was && read == before ==> last && !reading && output == e + ErrorEvents(sense.0, Head()))
      && (was && read != before ==> (reading <==> !last) && PhaseSent(before, read, e, output, last, Head()))
      && (was && read != before && last ==> TheDisc().Valid() && limit > 0 && Finished(TheDisc(), limit, read))
    }

    /** The guest has room for one data phase. */
    method MoveData()
      requires Valid() && phase == 2
      modifies `phase, `output, `reading, `sense, `buffer, `length, `position, `remaining, `lba, `read
      modifies store, store.cache, store.seekIndex, store.volume`fatBuffer, store.volume`fatIndex
      ensures Valid() && (reading ==> old(reading)) && (phase == 0 || phase == 2)
      ensures Moved(old(reading), old(read), old(Left()), old(output), phase == 0)
      ensures sense == old(sense) || output == old(output) + ErrorEvents(sense.0, Head())
      ensures old(reading) && store.volume.card.healthy
              && old(TheDisc().Valid() && TheDisc().AllGood(read.first, read.count)) ==>
                read != old(read)
      ensures sense == old(sense) || sense in {(5, 0x64, 0), (3, 0x11, 0)}
    {
      hide SeekCache.Serves, SeekCache.Valid, Usable, InRead, Finished, DataPhase, Media, NoData, TheDisc, Disc.Valid,
           Disc.AllGood;
      SendFacts();
      NextAsked();
      if position == length && remaining > 0 {
        var ok := FetchBlock();
        if !ok {
          return;
        }
      }
      ghost var before, p := read, position;
      SendData();
      Cut(buffer, p, position, length);
      assert reading ==> |read.phases| == |before.phases| + 1;
    }

    static lemma Cut(b: seq<byte>, p: nat, q: nat, l: nat)
      requires p <= q <= l <= |b|
      ensures b[p..l][..q - p] == b[p..q] && b[p..l][q - p..] == b[q..l]
    {
    }

    /** The guest has reset the drive or started another command. */
    method Abandon(reset: bool)
      requires Valid()
      modifies `phase, `reading, `locked, `attention, `sense
      ensures Valid() && phase == 0 && !reading
      ensures if reset then attention == 0x29 && !locked && sense == old(sense)
              else attention == old(attention) && locked == old(locked) && sense == (0xb, 0x47, 0)
    {
      hide Media, Transfer;
      VolumeKnown();
      phase, reading := 0, false;
      Idle();
      if reset {
        locked := false;
        WarnOfReset();
      } else {
        sense := (0xb, 0x47, 0);
      }
    }

    method WarnOfReset()
      requires Media()
      modifies `attention
      ensures Media() && attention == 0x29
    {
      hide SeekCache.Serves, SeekCache.Valid, Usable;
      attention := 0x29;
    }

    // -------------------------------------------------------------- commands

    /** `CDCommand`, called only while idle. `identity` is the fixed IDENTIFY PACKET DEVICE page. */
    method Command(tfr: seq<byte>, u: int, state: nat, identity: seq<byte>)
      requires Valid() && phase == 0 && |tfr| == 8
      modifies `current, `loaded, `pending, `attention, `unreported, `phase, `output, `reading, `sense, `limit,
               `generation, `locked
      modifies store`cachedImage, store`cachedFile
      ensures Valid() && !reading
      ensures phase != 0 <==> u == unit && tfr[7] == 0xa0 && tfr[1] % 4 == 0 && !(tfr[4] == 1 && tfr[5] == 0)
      ensures if u == unit then Greeted(tfr, identity, old(output))
              else output == old(output) + [TaskFile(4, 0, 0, 0, 0, tfr[6]), Status({End, Error, Irq})]
      ensures phase != 0 ==> phase == 1 && generation == state && limit == Limit(tfr[5], tfr[4])
      ensures phase != 0 ==>
                var asked := 256 * tfr[5] as nat + tfr[4] as nat;
                && (asked == 0 || asked >= 2048 ==> limit == 2048)
                && (2 <= asked < 2048 ==> limit % 2 == 0 && limit <= asked <= limit + 1)
      ensures u != unit ==> current == old(current) && attention == old(attention) && sense == old(sense)
      ensures u == unit && tfr[7] in {8, 0x90} ==> attention == 0x29
      ensures locked == (old(locked) && !(u == unit && tfr[7] in {8, 0x90}))
      ensures if old(pending) && u == unit
              then current == 1 - old(current) && !pending && (loaded <==> Image(current).blocks > 0)
              else current == old(current) && loaded == old(loaded) && pending == old(pending)
      ensures unreported && !old(unreported) ==> old(pending) && !pending
      ensures old(unreported) ==> unreported
      ensures if u == unit && tfr[7] == 0xa1 then AddsOnly(old(output), output, identity) else Adds(old(output), output)
      ensures sense in {old(sense), (0, 0, 0)} || output == old(output) + ErrorEvents(sense.0, Head())
      ensures attention == 0 ==> old(attention) == 0
      ensures loaded && !(old(loaded) && current == old(current)) ==> attention != 0
    {
      hide SeekCache.Serves, SeekCache.Valid, Usable, InRead, Limit, AddsOnly, Greeted;
      if unit != u {
        output := output + [TaskFile(4, 0, 0, 0, 0, tfr[6]), Status({End, Error, Irq})];
        return;
      }
      Commit();
      Answer(tfr, state, identity);
      if phase != 0 {
        LimitGrants(tfr);
      }
    }

    /** What the guest sees at once of a command to this drive: identification, the signature of a packet device after
        a reset or a diagnosis, a call for the packet, or a refusal. */
    predicate Greeted(tfr: seq<byte>, identity: seq<byte>, was: seq<Event>)
      requires |tfr| == 8
      reads `output, `unit
    {
      var h := if unit % 2 == 0 then 0xA0 else 0xB0;
      output == was +
        if tfr[7] == 0xa1 then
          [TaskFile(0, 1, 1, 0x14, 0xeb, h), Status({Ready}), Data(identity), Status({End, Irq})]
        else if tfr[7] == 0x08 || tfr[7] == 0x90 then [TaskFile(1, 1, 1, 0x14, 0xeb, h), Status({End, Irq})]
        else if tfr[7] != 0xa0 || tfr[1] % 4 != 0 then
          [TaskFile(4, 1, 1, 0x14, 0xeb, h), Status({End, Error, Irq})]
        else if tfr[4] == 1 && tfr[5] == 0 then
          [TaskFile(0x54, 3, 0, 0, 0, h), Status({End, Irq, Error, Abort})]
        else [TaskFile(0, 1, 0, tfr[4], tfr[5], h), Status({Request, Packet})]
    }

    method Answer(tfr: seq<byte>, state: nat, identity: seq<byte>)
      requires Valid() && phase == 0 && |tfr| == 8
      modifies `phase, `output, `reading, `sense, `limit, `generation, `locked, `attention
      ensures Greeted(tfr, identity, old(output))
      ensures tfr[7] in {8, 0x90} ==> sense == (0, 0, 0)
      ensures tfr[7] == 0xa0 && tfr[1] % 4 == 0 && tfr[4] == 1 && tfr[5] == 0 ==> sense == (5, 0x24, 0)
      ensures Valid() && !reading
      ensures phase != 0 <==> tfr[7] == 0xa0 && tfr[1] % 4 == 0 && !(tfr[4] == 1 && tfr[5] == 0)
      ensures phase != 0 ==> phase == 1 && generation == state && limit == Limit(tfr[5], tfr[4])
      ensures if tfr[7] in {8, 0x90} then attention == 0x29 && !locked
              else attention == old(attention) && locked == old(locked)
      ensures if tfr[7] == 0xa1 then AddsOnly(old(output), output, identity) else Adds(old(output), output)
      ensures sense in {old(sense), (0, 0, 0)} || output == old(output) + ErrorEvents(sense.0, Head())
    {
      hide Media, InRead;
      if tfr[7] == 0xa1 {
        output := output + [TaskFile(0, 1, 1, 0x14, 0xeb, Head()), Status({Ready}), Data(identity), Status({End, Irq})];
      } else if tfr[7] == 8 || tfr[7] == 0x90 {
        locked, sense := false, (0, 0, 0);
        WarnOfReset();
        output := output + [TaskFile(1, 1, 1, 0x14, 0xeb, Head()), Status({End, Irq})];
      } else if tfr[7] != 0xa0 || tfr[1] % 4 != 0 {
        output := output + [TaskFile(4, 1, 1, 0x14, 0xeb, Head()), Status({End, Error, Irq})];
      } else {
        AcceptPacket(tfr, state);
      }
    }

    /** The byte-count limit: clipped to one block and made even. */
    method AcceptPacket(tfr: seq<byte>, state: nat)
      requires Valid() && phase == 0 && |tfr| == 8
      modifies `phase, `output, `reading, `sense, `limit, `generation
      ensures Valid() && !reading && Adds(old(output), output)
      ensures tfr[4] == 1 && tfr[5] == 0 ==> output == old(output) + ErrorEvents(5, Head())
      ensures !(tfr[4] == 1 && tfr[5] == 0) ==>
                output == old(output) + [TaskFile(0, 1, 0, tfr[4], tfr[5], Head()), Status({Request, Packet})]
      ensures sense == old(sense) || output == old(output) + ErrorEvents(sense.0, Head())
      ensures if tfr[4] == 1 && tfr[5] == 0 then phase == 0 && sense == (5, 0x24, 0)
              else phase == 1 && generation == state && limit == Limit(tfr[5], tfr[4]) && Grants(tfr, limit)
    {
      hide SeekCache.Serves, SeekCache.Valid, Usable, InRead, Media;
      limit := Be16(tfr[5], tfr[4]);
      if limit == 0 || limit == 0xffff {
        limit := 2048;
      }
      if limit == 1 {
        Fail(5, 0x24, 0);
        return;
      }
      if limit > 2048 {
        limit := 2048;
      }
      limit := limit - limit % 2;
      generation := state;
      output := output + [TaskFile(0, 1, 0, tfr[4], tfr[5], Head()), Status({Request, Packet})];
      phase := 1;
    }

    // -------------------------------------------------------------- media

    /** `CDImageOpen` into a slot. */
    method Open(image: CDImage, parse: Parse, ghost p: seq<Track>) returns (ok: bool)
      requires store.volume.g.Valid() && parse.Sound(store.volume.g, store.volume.card.sectors)
      modifies image
      ensures Usable(image)
      ensures ok <==> image.blocks > 0
      ensures ok ==> parse.valid && image.files == parse.files && SameCue(parse.tracks, image.tracks)
      ensures parse.valid && Solution(parse.files, parse.tracks, p) ==> ok && image.tracks == p
    {
      hide Parsed, IsLayout, Solution, SameCue;
      image.files, image.tracks, image.blocks := [], [], 0;
      if !parse.valid {
        return false;
      }
      image.files, image.tracks := parse.files, parse.tracks;
      ok := Layout(image, p);
      if ok {
        LastBlock(image.files, image.tracks, image.blocks);
      }
    }

    static lemma LastBlock(files: seq<ImageFile>, tracks: seq<Track>, blocks: u32)
      requires LaidOut(files, tracks, blocks)
      ensures blocks > 0
    {
      assert Placed(files, tracks, |tracks| - 1);
    }

    method FillSpare(parse: Parse, ghost p: seq<Track>) returns (ok: bool)
      requires Valid() && !pending && parse.Sound(store.volume.g, store.volume.card.sectors)
      modifies if current == 0 then odd else even
      ensures Valid() && Usable(Image(1 - current))
      ensures ok <==> Image(1 - current).blocks > 0
      ensures ok ==>
                parse.valid && Image(1 - current).files == parse.files
                && SameCue(parse.tracks, Image(1 - current).tracks)
      ensures parse.valid && Solution(parse.files, parse.tracks, p) ==> ok && Image(1 - current).tracks == p
    {
      hide SeekCache.Serves, Following, LaidOut, SameCue, Solution, Usable, Parse.Sound;
      ok := Open(Image(1 - current), parse, p);
    }

    /** `CDMount`: lay out the new image beside the old one; a failure leaves the old one in place. */
    method Mount(u: int, parse: Parse, ghost p: seq<Track>) returns (reply: Reply)
      requires Valid() && parse.Sound(store.volume.g, store.volume.card.sectors)
      modifies `current, `loaded, `pending, `attention, `unreported, even, odd, store`cachedImage, store`cachedFile
      ensures Valid()
      ensures reply.Slot? <==> unit != u
      ensures reply.Locked? <==> unit == u && locked
      ensures reply.Busy? <==> unit == u && !locked && old(pending)
      ensures !reply.Accepted? ==> pending == old(pending)
      ensures !reply.Accepted? || old(phase) != 0 ==>
                current == old(current) && TheDisc() == old(TheDisc()) && loaded == old(loaded)
                && attention == old(attention)
                && unreported == old(unreported)
      ensures reply.Accepted? && old(phase) == 0 ==>
                current == 1 - old(current) && loaded && attention == 0x28 && unreported && !pending
                && Made(parse, TheDisc())
      ensures reply.Accepted? && old(phase) != 0 ==>
                && pending && Made(parse, Waiting())
      ensures reply.Busy? || reply.Locked? || reply.Slot? ==> Waiting() == old(Waiting())
      ensures unit == u && !locked && !old(pending) && parse.valid && Solution(parse.files, parse.tracks, p) ==>
                reply.Accepted?
    {
      hide SeekCache.Serves, SeekCache.Valid, Usable, Following, LaidOut, SameCue, Solution, Parse.Sound, Transfer,
           InRead;
      if unit != u {
        return Slot;
      }
      if locked {
        return Locked;
      }
      if pending {
        return Busy;
      }
      var ok := FillSpare(parse, p);
      if !ok {
        return Rejected;
      }
      pending := true;
      Commit();
      return Accepted;
    }

    /** `CDEject`: an empty image waits its turn like any other. */
    method Eject(u: int) returns (reply: Reply)
      requires Valid()
      modifies `current, `loaded, `pending, `attention, `unreported, even, odd, store`cachedImage, store`cachedFile
      ensures Valid()
      ensures reply.Accepted? <==> unit == u && !locked && !old(pending)
      ensures reply.Accepted? && old(phase) == 0 ==>
                current == 1 - old(current) && !loaded && attention == 0x28 && !pending && TheDisc().blocks == 0
      ensures reply.Accepted? && old(phase) != 0 ==> pending && Waiting().blocks == 0
      ensures !reply.Accepted? ==> pending == old(pending) && Waiting() == old(Waiting())
      ensures !reply.Accepted? || old(phase) != 0 ==>
                current == old(current) && TheDisc() == old(TheDisc()) && loaded == old(loaded)
                && attention == old(attention)
                && unreported == old(unreported)
    {
      hide SeekCache.Serves, SeekCache.Valid, Following, LaidOut;
      if unit != u {
        return Slot;
      }
      if locked {
        return Locked;
      }
      if pending {
        return Busy;
      }
      Clear(Image(1 - current));
      pending := true;
      Commit();
      return Accepted;
    }

    method Clear(image: CDImage)
      modifies image
      ensures image.blocks == 0 && image.files == [] && image.tracks == []
    {
      image.files, image.tracks, image.blocks := [], [], 0;
    }

    /** `CDValidateImage`: a trial layout in the spare slot. */
    method ValidateImage(parse: Parse, ghost p: seq<Track>) returns (reply: Reply)
      requires Valid() && parse.Sound(store.volume.g, store.volume.card.sectors)
      modifies even, odd
      ensures Valid() && TheDisc() == old(TheDisc())
      ensures reply.Busy? <==> pending
      ensures pending ==> Waiting() == old(Waiting())
      ensures !pending && parse.valid && Solution(parse.files, parse.tracks, p) ==> reply.Accepted?
    {
      hide SeekCache.Serves, SeekCache.Valid, Usable, Following, LaidOut, SameCue, Solution, Parse.Sound, Transfer,
           InRead;
      if pending {
        return Busy;
      }
      var ok := FillSpare(parse, p);
      return if ok then Accepted else Rejected;
    }

    /** `CDConfigure`: attach the drive to a unit, empty. */
    method Configure(u: nat) returns (ok: bool)
      requires Valid()
      modifies `unit, `phase, `pending, `locked, `loaded, `attention, `reading, `unreported, `current, `sense
      modifies even, odd, store`cachedImage, store`cachedFile
      ensures Valid()
      ensures ok <==> old(unit) < 0 || old(unit) == u
      ensures ok ==> unit == u && phase == 0 && !pending && !locked && !loaded && !reading && Image(current).blocks == 0
      ensures ok ==> sense == (0, 0, 0) && current == 0 && attention == 0 && !unreported
      ensures ok ==> store.cachedImage == null && even.blocks == 0 && odd.blocks == 0
      ensures !ok ==>
                && unit == old(unit) && phase == old(phase) && pending == old(pending) && locked == old(locked)
                && loaded == old(loaded)
                && attention == old(attention) && reading == old(reading) && unreported == old(unreported)
                && current == old(current) && sense == old(sense) && TheDisc() == old(TheDisc())
                && Waiting() == old(Waiting())
    {
      hide *;
      if unit >= 0 && unit != u {
        return false;
      }
      Empty(u);
      return true;
    }

    method Empty(u: nat)
      requires Valid()
      modifies `unit, `phase, `pending, `locked, `loaded, `attention, `reading, `unreported, `current, `sense
      modifies even, odd, store`cachedImage, store`cachedFile
      ensures Valid()
      ensures unit == u && phase == 0 && !pending && !locked && !loaded && !reading && Image(current).blocks == 0
      ensures sense == (0, 0, 0) && current == 0 && attention == 0 && !unreported
      ensures store.cachedImage == null && even.blocks == 0 && odd.blocks == 0
    {
      hide Media, Transfer, SeekCache.Valid;
      VolumeKnown();
      unit := u;
      phase, pending, locked, loaded, attention := 0, false, false, false, 0;
      reading, unreported := false, false;
      Clear(even);
      Clear(odd);
      current := 0;
      sense := (0, 0, 0);
      store.Invalidate();
      NoMedia();
      Idle();
    }

    lemma NoMedia()
      requires even != odd && current == 0 && store.Valid() && store.cachedImage == null
      requires even.blocks == 0 && odd.blocks == 0 && !loaded && !pending
      ensures Media()
    {
    }

    lemma Idle()
      requires store.volume.g.Valid() && phase == 0 && !reading
      ensures Transfer()
    {
    }

    /** `CDDetach`, and with `force` `CDResetConfiguration`, which also ends a transfer under way. */
    method Detach(u: int, force: bool)
      requires Valid()
      modifies `unit, `phase, `pending, `loaded, `locked, `reading, `output, store`cachedImage, store`cachedFile
      ensures Valid()
      ensures u == old(unit) || force ==> unit == -1 && phase == 0 && !pending && !loaded && !locked && !reading
      ensures Adds(old(output), output)
      ensures u == old(unit) || force ==>
                && store.cachedImage == null
                && output == old(output) + if force && old(phase) != 0 then [Status({End, Abort})] else []
      ensures u != old(unit) && !force ==>
                unit == old(unit) && phase == old(phase) && pending == old(pending) && loaded == old(loaded)
                && locked == old(locked)
                && reading == old(reading) && output == old(output)
    {
      hide Media, Transfer, Adds;
      NothingNew(output);
      AbortAdds(output);
      if unit != u && !force {
        return;
      }
      if force && phase != 0 {
        output := output + [Status({End, Abort})];
      }
      SwitchOff();
    }

    /** The drive belongs to no unit, and whatever was under way is over. */
    method SwitchOff()
      requires Valid()
      modifies `unit, `phase, `pending, `loaded, `locked, `reading, store`cachedImage, store`cachedFile
      ensures Valid() && unit == -1 && phase == 0 && !pending && !loaded && !locked && !reading
      ensures store.cachedImage == null
    {
      hide SeekCache.Serves, Usable, Transfer, SeekCache.Valid;
      VolumeKnown();
      phase, pending, loaded, locked := 0, false, false, false;
      reading, unit := false, -1;
      store.Invalidate();
      Idle();
    }
  }
}
