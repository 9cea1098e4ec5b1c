/** What the ATAPI drive makes of a packet: the fate of every command, the pages it answers with, and what a guest reads
    in them. */
module CdAnswers {
  import opened Basics
  import opened Storage
  import opened CdTypes
  import opened CdLayout
  import opened CdRead
  import opened CdTransfer

  /** Refused with sense data, completed without data, or the beginning of a data transfer. */
  datatype Verdict =
    | Refused(key: nat, asc: nat, ascq: nat)
    | Completed
    | Answers(bytes: seq<byte>)
    | Reads(first: nat, count: nat)

  /** What of the drive's state a packet changes. */
  datatype Standing = Standing(attention: nat, loaded: bool, locked: bool, sense: (nat, nat, nat))

  const BadField: Verdict := Refused(5, 0x24, 0)

  /** TEST UNIT READY, READ CAPACITY, READ TOC and the READs need a disc the guest has heard of. */
  predicate NeedsDisc(op: byte) {
    op in {0, 0x25, 0x43, 0x28, 0xa8}
  }

  /** What becomes of a packet, for the disc in the drive. */
  function Decide(packet: seq<byte>, st: Standing, tracks: seq<Track>, blocks: nat): Verdict
    requires |packet| == 12 && (st.loaded ==> tracks != [])
  {
    if packet[1] / 32 != 0 then Refused(5, 0x25, 0)
    else if NeedsDisc(packet[0]) && st.attention != 0 then Refused(6, st.attention, 0)
    else if NeedsDisc(packet[0]) && !st.loaded then Refused(2, 0x3a, 0)
    else Ordered(packet, st, tracks, blocks)
  }

  /** ... that passed the tests before. */
  function Ordered(packet: seq<byte>, st: Standing, tracks: seq<Track>, blocks: nat): Verdict
    requires |packet| == 12 && (packet[0] == 0x43 ==> tracks != [])
  {
    match packet[0]
    case 0x00 => Completed
    case 0x03 => if packet[1] % 2 == 1 then BadField else Offer(SenseData(st.sense), packet[4])
    case 0x12 => if packet[1] % 4 != 0 || packet[2] != 0 then BadField else Offer(InquiryData(), packet[4])
    case 0x25 =>
      if Be32(packet[2], packet[3], packet[4], packet[5]) != 0 || packet[8] != 0 then BadField
      else Offer(Put32(blocks - 1) + Put32(USER), 8)
    case 0x43 => Toc(packet, tracks, blocks)
    case 0x1a => ModeSense(packet, st.locked)
    case 0x5a => ModeSense(packet, st.locked)
    case 0x28 => Range(packet, blocks)
    case 0xa8 => Range(packet, blocks)
    case 0x1b =>
      if packet[4] / 4 != 0 || packet[1] / 2 != 0 then BadField
      else if packet[4] == 2 && st.locked then Refused(5, 0x53, 2)
      else Completed
    case 0x1e => if packet[4] / 2 != 0 then BadField else Completed
    case _ => Refused(5, 0x20, 0)
  }

  /** The drive after a packet: errors leave sense data, a unit attention is reported once, and the tray and the lock
      move. */
  function After(packet: seq<byte>, st: Standing, tracks: seq<Track>, blocks: nat): Standing
    requires |packet| == 12 && (st.loaded ==> tracks != [])
  {
    var v, op := Decide(packet, st, tracks, blocks), packet[0];
    if v.Refused? then
      st.(sense := (v.key, v.asc, v.ascq), attention := if v.key == 6 then 0 else st.attention)
    else if op == 0 || op == 3 then st.(sense := (0, 0, 0))
    else if op == 0x1b && packet[4] == 2 && st.loaded then st.(loaded := false, attention := 0x28)
    else if op == 0x1b && packet[4] == 3 && blocks != 0 && !st.loaded then st.(loaded := true, attention := 0x28)
    else if op == 0x1e then st.(locked := packet[4] == 1)
    else st
  }

  /** What the guest sees at once. */
  function Seen(v: Verdict, head: nat): seq<Event> {
    match v
    case Refused(key, _, _) => ErrorEvents(key, head)
    case Completed => CompletionEvents(head)
    case _ => [Status({Ready, Packet})]
  }

  function CompletionEvents(head: nat): (e: seq<Event>)
    ensures |e| == 2 && !e[0].Data? && !e[1].Data?
  {
    [TaskFile(0, 3, 0, 0, 0, head), Status({End, Irq})]
  }

  /** A page, cut to what the guest allows; nothing of it completes the command. */
  function Offer(page: seq<byte>, allocation: nat): (v: Verdict)
    ensures v.Completed? || v.Answers?
  {
    var n := Least(|page|, allocation);
    if n == 0 then Completed else Answers(page[..n])
  }

  /** READ(10) and READ(12). */
  function Range(packet: seq<byte>, blocks: nat): Verdict
    requires |packet| == 12
  {
    var first, count := Be32(packet[2], packet[3], packet[4], packet[5]), Requested(packet);
    if packet[1] % 8 != 0 then BadField
    else if first + count > blocks then Refused(5, 0x21, 0)
    else if count == 0 then Completed
    else Reads(first, count)
  }

  /** A packet starts a READ if and only if it is well formed, the disc is ready, and its blocks are on it. */
  lemma ReadsExactly(packet: seq<byte>, st: Standing, tracks: seq<Track>, blocks: nat)
    requires |packet| == 12 && (st.loaded ==> tracks != [])
    ensures var v := Decide(packet, st, tracks, blocks);
      && (v.Reads? <==> ReadAccepted(packet, st.attention, st.loaded, blocks))
      && (v.Reads? ==> v == Reads(Be32(packet[2], packet[3], packet[4], packet[5]), Requested(packet)))
  {
    hide Be32, Requested, ModeSense, Toc;
  }

  /** The fate of a READ of `count` blocks from `first` on that finds the disc ready. */
  lemma ReadFates(packet: seq<byte>, st: Standing, tracks: seq<Track>, blocks: nat, first: nat, count: nat)
    requires |packet| == 12 && packet[0] in {0x28, 0xa8} && packet[1] < 32
    requires st.loaded && tracks != [] && st.attention == 0
    requires first == 0x100_0000 * packet[2] as nat + 0x1_0000 * packet[3] as nat + 0x100 * packet[4] as nat
                      + packet[5] as nat
    requires count == if packet[0] == 0x28 then 0x100 * packet[7] as nat + packet[8] as nat
                      else 0x100_0000 * packet[6] as nat + 0x1_0000 * packet[7] as nat + 0x100 * packet[8] as nat
                           + packet[9] as nat
    ensures Decide(packet, st, tracks, blocks) ==
              if packet[1] !in {0, 8, 16, 24} then Refused(5, 0x24, 0)
              else if first + count > blocks then Refused(5, 0x21, 0)
              else if count == 0 then Completed else Reads(first, count)
  {
    RequestedCount(packet);
    assert packet[1] % 8 == 0 <==> packet[1] in {0, 8, 16, 24};
  }

  /** A page of which the guest allows that many bytes. */
  predicate Given(v: Verdict, page: seq<byte>, allowed: nat) {
    if allowed == 0 || page == [] then v == Completed
    else v.Answers? && v.bytes <= page && |v.bytes| == if |page| < allowed then |page| else allowed
  }

  /** Which commands there are, and which of them a disc the guest has not heard of refuses. */
  lemma Fates(packet: seq<byte>, st: Standing, tracks: seq<Track>, blocks: nat)
    requires |packet| == 12 && (st.loaded ==> tracks != [])
    ensures var v, op := Decide(packet, st, tracks, blocks), packet[0];
      && (packet[1] >= 32 ==> v == Refused(5, 0x25, 0))
      && (packet[1] < 32 && op in {0x00, 0x25, 0x43, 0x28, 0xa8} ==>
            && (st.attention != 0 ==> v == Refused(6, st.attention, 0))
            && (st.attention == 0 && !st.loaded ==> v == Refused(2, 0x3a, 0)))
      && (packet[1] < 32 && op !in {0x00, 0x03, 0x12, 0x1a, 0x1b, 0x1e, 0x25, 0x28, 0x43, 0x5a, 0xa8} ==>
            v == Refused(5, 0x20, 0))
  {
    hide Toc, ModeSense, Range, Be32;
  }

  /** TEST UNIT READY, REQUEST SENSE and INQUIRY. */
  lemma PageFates(packet: seq<byte>, st: Standing, tracks: seq<Track>, blocks: nat)
    requires |packet| == 12 && packet[1] < 32 && (st.loaded ==> tracks != [])
    ensures var v := Decide(packet, st, tracks, blocks);
      && (packet[0] == 0x00 && st.attention == 0 && st.loaded ==> v == Completed)
      && (packet[0] == 0x03 ==>
            if packet[1] % 2 == 1 then v == Refused(5, 0x24, 0) else Given(v, SenseData(st.sense), packet[4]))
      && (packet[0] == 0x12 ==>
            if packet[1] % 4 != 0 || packet[2] != 0 then v == Refused(5, 0x24, 0)
            else Given(v, InquiryData(), packet[4]))
  {
    hide Toc, ModeSense, Range, SenseData, InquiryData, Offer, Given;
    OfferGives(SenseData(st.sense), packet[4]);
    OfferGives(InquiryData(), packet[4]);
  }

  lemma OfferGives(page: seq<byte>, allowed: nat)
    ensures Given(Offer(page, allowed), page, allowed)
  {
  }

  /** READ CAPACITY names the last block and the size of a block. */
  lemma CapacityFate(packet: seq<byte>, st: Standing, tracks: seq<Track>, blocks: nat)
    requires |packet| == 12 && packet[1] < 32 && tracks != [] && packet[0] == 0x25 && st.attention == 0 && st.loaded
    ensures var zeros := packet[2] == packet[3] == packet[4] == packet[5] == packet[8] == 0;
      Decide(packet, st, tracks, blocks) ==
        if zeros then Answers(Put32(blocks - 1) + [0, 0, 8, 0]) else Refused(5, 0x24, 0)
  {
    hide Toc, ModeSense, Range, SenseData, InquiryData, Put32, Be32, Offer, Given;
    OfferGives(Put32(blocks - 1) + Put32(2048), 8);
    WholeGiven(Put32(blocks - 1) + Put32(2048));
    BlockSize();
    ZeroAddress(packet[2], packet[3], packet[4], packet[5]);
  }

  lemma WholeGiven(page: seq<byte>)
    requires |page| == 8
    ensures Given(Offer(page, 8), page, 8) ==> Offer(page, 8) == Answers(page)
  {
  }

  lemma BlockSize()
    ensures Put32(2048) == [0, 0, 8, 0]
  {
  }

  lemma ZeroAddress(a: byte, b: byte, c: byte, d: byte)
    ensures Be32(a, b, c, d) == 0 <==> a == b == c == d == 0
  {
  }

  /** What sense data tell. */
  lemma SenseTells(key: nat, asc: nat, ascq: nat)
    requires key < 16 && asc < 256 && ascq < 256
    ensures var s := SenseData((key, asc, ascq));
      && |s| == 18 && s[0] == 0x70 && s[2] == key && s[7] == 10 && s[12] == asc && s[13] == ascq
      && forall i :: 0 <= i < 18 && i !in {0, 2, 7, 12, 13} ==> s[i] == 0
  {
  }

  /** The inquiry page: a removable CD drive, 31 bytes more, and its names. */
  lemma InquiryTells()
    ensures InquiryData()[..8] == [5, 0x80, 0, 0x21, 31, 0, 0, 0]
    ensures Spells(InquiryData(), 8, "MINI") && Spells(InquiryData(), 12, "MIG ") && Spells(InquiryData(), 32, "1.00")
    ensures Spells(InquiryData(), 16, "VIRT") && Spells(InquiryData(), 20, "UAL ")
    ensures Spells(InquiryData(), 24, "CD-R") && Spells(InquiryData(), 28, "OM  ")
  {
    Maker();
    Product();
    hide InquiryData, Spells;
  }

  lemma Maker()
    ensures InquiryData()[..8] == [5, 0x80, 0, 0x21, 31, 0, 0, 0]
    ensures Spells(InquiryData(), 8, "MINI") && Spells(InquiryData(), 12, "MIG ") && Spells(InquiryData(), 32, "1.00")
  {
  }

  lemma Product()
    ensures Spells(InquiryData(), 16, "VIRT") && Spells(InquiryData(), 20, "UAL ")
    ensures Spells(InquiryData(), 24, "CD-R") && Spells(InquiryData(), 28, "OM  ")
  {
  }

  predicate Spells(s: seq<byte>, p: nat, text: string)
    requires p + 4 <= |s| && |text| == 4
  {
    && s[p] as int == text[0] as int && s[p + 1] as int == text[1] as int
    && s[p + 2] as int == text[2] as int && s[p + 3] as int == text[3] as int
  }

  /** MODE SENSE: what it may ask for, and what the page says. */
  lemma ModeFates(packet: seq<byte>, st: Standing, tracks: seq<Track>, blocks: nat)
    requires |packet| == 12 && packet[1] < 32 && packet[0] in {0x1a, 0x5a} && (st.loaded ==> tracks != [])
    ensures var v := Decide(packet, st, tracks, blocks);
      if packet[3] != 0 || packet[1] !in {0, 8} || packet[2] !in {0x01, 0x2a, 0x3f, 0x41, 0x6a, 0x7f, 0x81, 0xaa, 0xbf}
      then v == Refused(5, 0x24, 0)
      else if packet[0] == 0x1a then
        Given(v, ModePage(false, packet[2] % 64, packet[2] / 64 == 1, st.locked), packet[4])
      else Given(v, ModePage(true, packet[2] % 64, packet[2] / 64 == 1, st.locked),
             0x100 * packet[7] as nat + packet[8] as nat)
  {
    hide ModePage;
    var p := packet[2];
    assert p / 64 != 3 && p % 64 in {0x2a, 1, 0x3f} <==> p in {0x01, 0x2a, 0x3f, 0x41, 0x6a, 0x7f, 0x81, 0xaa, 0xbf};
  }

  /** A mode page: its length, write protected, and what was asked for behind that. */
  lemma ModesTell(ten: bool, page: nat, changeable: bool, locked: bool)
    requires page in {0x01, 0x2a, 0x3f}
    ensures var s, body := ModePage(ten, page, changeable, locked),
              Recovery(page) + Capabilities(page, changeable, locked);
      if ten then s[..8] == [0, |s| - 2, 0, 0x80, 0, 0, 0, 0] && s[8..] == body
      else s[..4] == [|s| - 1, 0, 0x80, 0] && s[4..] == body
    ensures Recovery(page) == if page == 0x2a then [] else [1, 6, 0, 0, 0, 0, 0, 0]
    ensures if page == 0x01 then Capabilities(page, changeable, locked) == []
            else |Capabilities(page, changeable, locked)| == 20
                 && CapabilitiesTold(Capabilities(page, changeable, locked), changeable, locked)
  {
    assert |Recovery(page)| == if page == 0x2a then 0 else 8;
    hide Recovery;
    assert |Capabilities(page, changeable, locked)| == if page == 0x01 then 0 else 20;
    if page != 0x01 {
      CapabilitiesTell(page, changeable, locked);
    }
    hide Capabilities, CapabilitiesTold;
  }

  lemma CapabilitiesTell(page: nat, changeable: bool, locked: bool)
    requires page in {0x2a, 0x3f}
    ensures CapabilitiesTold(Capabilities(page, changeable, locked), changeable, locked)
  {
  }

  /** The capabilities page: audio play, loading, 706 KB/s at most and at present, and the lock. */
  predicate CapabilitiesTold(s: seq<byte>, changeable: bool, locked: bool)
    requires |s| == 20
  {
    && s[..6] == [0x2a, 18, 0, 0, 0, 0]
    && s[6] == (if changeable then 0 else if locked then 0x2b else 0x29)
    && s[7..] == if changeable then [0, 0, 0, 0, 0, 0, 0, 0, 0, 0, 0, 0, 0]
                 else [0, 2, 0xc2, 0, 0, 0, 2, 2, 0xc2, 0, 0, 0, 0]
  }

  /** READ TOC: what it may ask for. */
  lemma TocFates(packet: seq<byte>, st: Standing, tracks: seq<Track>, blocks: nat)
    requires |packet| == 12 && packet[1] < 32 && packet[0] == 0x43
    requires st.attention == 0 && st.loaded && tracks != []
    ensures var v, allowed := Decide(packet, st, tracks, blocks), 0x100 * packet[7] as nat + packet[8] as nat;
      if packet[1] !in {0, 2} || packet[2] % 16 > 1 then v == Refused(5, 0x24, 0)
      else if packet[2] % 16 == 1 then Given(v, Session(tracks, packet[1] == 2), allowed)
      else if packet[6] !in {0, 0xaa} && (packet[6] < tracks[0].number || packet[6] > tracks[|tracks| - 1].number) then
        v == Refused(5, 0x24, 0)
      else Given(v, Contents(tracks, blocks, packet[6], packet[1] == 2), allowed)
  {
    hide Session, Contents;
  }

  /** The session table: one session, that begins with the first track with data, if there is one. */
  lemma SessionTells(tracks: seq<Track>, msf: bool, k: nat)
    requires tracks != [] && k < |tracks| && forall i :: 0 <= i < k ==> tracks[i].mode.Audio?
    requires !tracks[k].mode.Audio? || (k == 0 && forall i :: 0 <= i < |tracks| ==> tracks[i].mode.Audio?)
    ensures var s := Session(tracks, msf);
      && |s| == 12 && s[..4] == [0, 10, 1, 1] && s[4] == 0 && s[7] == 0
      && s[5] == (if tracks[k].mode.Audio? then 0x10 else 0x14) && s[6] == tracks[k].number % 256
      && (!msf || tracks[k].start + 150 < 256 * 4500 ==> Located(s[8..], msf) == tracks[k].start)
  {
    hide Address, Located;
    FirstDataIs(tracks, 0, k);
    AddressRoundTrip(tracks[k].start, msf);
    assert Session(tracks, msf)[8..] == Address(tracks[k].start, msf);
  }

  lemma {:induction false} FirstDataIs(tracks: seq<Track>, n: nat, k: nat)
    requires n <= |tracks| && k < |tracks| && forall i :: 0 <= i < k ==> tracks[i].mode.Audio?
    requires !tracks[k].mode.Audio? || (k == 0 && forall i :: 0 <= i < |tracks| ==> tracks[i].mode.Audio?)
    requires n <= k || tracks[k].mode.Audio?
    ensures FirstData(tracks, n) == k
    decreases |tracks| - n
  {
    if n < |tracks| && tracks[n].mode.Audio? {
      FirstDataIs(tracks, n + 1, k);
    }
  }

  /** START STOP UNIT and PREVENT ALLOW MEDIUM REMOVAL: what they refuse, and how they move the tray and the lock. */
  lemma TrayFates(packet: seq<byte>, st: Standing, tracks: seq<Track>, blocks: nat)
    requires |packet| == 12 && packet[1] < 32 && (st.loaded ==> tracks != [])
    ensures var v, n := Decide(packet, st, tracks, blocks), After(packet, st, tracks, blocks);
      && (packet[0] == 0x1b ==>
            if packet[4] > 3 || packet[1] > 1 then v == Refused(5, 0x24, 0)
            else if packet[4] == 2 && st.locked then v == Refused(5, 0x53, 2)
            else v == Completed && n.locked == st.locked && n.sense == st.sense
                 && n.loaded == (if packet[4] == 2 then false else st.loaded || (packet[4] == 3 && blocks > 0))
                 && n.attention == (if n.loaded == st.loaded then st.attention else 0x28))
      && (packet[0] == 0x1e ==>
            if packet[4] > 1 then v == Refused(5, 0x24, 0)
            else v == Completed && n == st.(locked := packet[4] == 1))
  {
    hide Toc, ModeSense, Range, Be32;
  }

  /** Every refusal is kept as sense data, and a reported attention is over; TEST UNIT READY and REQUEST SENSE clear
      them, and nothing else but the tray and the lock changes. */
  lemma AfterTells(packet: seq<byte>, st: Standing, tracks: seq<Track>, blocks: nat)
    requires |packet| == 12 && (st.loaded ==> tracks != [])
    ensures var v, n := Decide(packet, st, tracks, blocks), After(packet, st, tracks, blocks);
      if v.Refused? then
        && n.sense == (v.key, v.asc, v.ascq) && n.loaded == st.loaded && n.locked == st.locked
        && n.attention == (if v.key == 6 then 0 else st.attention)
      else if packet[0] in {0x00, 0x03} then n == st.(sense := (0, 0, 0))
      else packet[0] !in {0x1b, 0x1e} ==> n == st
  {
    hide Decide;
  }

  /** What the guest sees of each verdict. */
  lemma SeenTells(v: Verdict, unit: int)
    ensures var h, e := if unit % 2 == 0 then 0xA0 else 0xB0, Seen(v, HeadOf(unit));
      && (v.Refused? ==> e == [TaskFile(0x10 * v.key + 0x04, 3, 0, 0, 0, h), Status({End, Irq, Error, Abort})])
      && (v.Completed? ==> e == [TaskFile(0, 3, 0, 0, 0, h), Status({End, Irq})])
      && (v.Answers? || v.Reads? ==> e == [Status({Ready, Packet})])
  {
  }

  /** Whatever tells of the disc is only told while one is loaded and no unit attention is pending; otherwise that is
      what the guest is told. */
  lemma DiscTold(packet: seq<byte>, st: Standing, tracks: seq<Track>, blocks: nat)
    requires |packet| == 12 && (st.loaded ==> tracks != []) && NeedsDisc(packet[0]) && packet[1] / 32 == 0
    ensures var v := Decide(packet, st, tracks, blocks);
      && (v.Refused? && v.key == 6 <==> st.attention != 0)
      && (v.Refused? && v.key == 2 <==> st.attention == 0 && !st.loaded)
      && (st.attention != 0 ==> After(packet, st, tracks, blocks).attention == 0)
  {
    hide Be32, Requested, ModeSense, Toc;
  }

  lemma AnswersTell(packet: seq<byte>, st: Standing, tracks: seq<Track>, blocks: nat)
    requires |packet| == 12 && (st.loaded ==> tracks != [])
    ensures var v := Decide(packet, st, tracks, blocks);
      (v.Answers? ==> packet[1] / 32 == 0) && (ReadAccepted(packet, st.attention, st.loaded, blocks) ==>
        packet[1] / 32 == 0 && NeedsDisc(packet[0]))
  {
    hide Ordered;
  }

  // ---------------------------------------------------------------- pages

  function Put32(n: int): (s: seq<byte>)
    ensures |s| == 4
  {
    [n / 0x100_0000 % 256, n / 0x1_0000 % 256, n / 256 % 256, n % 256]
  }

  lemma Put32RoundTrip(n: u32)
    ensures var s := Put32(n); Be32(s[0], s[1], s[2], s[3]) == n
  {
    Quotients(n);
    var s := Put32(n);
    assert Be16(s[0], s[1]) == n / 0x1_0000;
    assert Be16(s[2], s[3]) == n % 0x1_0000;
  }

  lemma Quotients(n: u32)
    ensures 256 * (n / 0x100_0000 % 256) + n / 0x1_0000 % 256 == n / 0x1_0000
    ensures 256 * (n / 256 % 256) + n % 256 == n % 0x1_0000
  {
    var q := n / 0x1_0000;
    assert n / 0x100_0000 == q / 256;
    var r := n % 0x1_0000;
    assert n == 256 * (256 * q + r / 256) + r % 256;
    assert n / 256 == 256 * q + r / 256 && n % 256 == r % 256;
  }

  /** Fixed-format sense data. */
  function SenseData(sense: (nat, nat, nat)): (s: seq<byte>)
    ensures |s| == 18
  {
    [0x70, 0, sense.0 % 256, 0, 0, 0, 0, 10, 0, 0, 0, 0, sense.1 % 256, sense.2 % 256, 0, 0, 0, 0]
  }

  function InquiryData(): (s: seq<byte>)
    ensures |s| == 36
  {
    [5, 0x80, 0, 0x21, 31, 0, 0, 0,
     77, 73, 78, 73, 77, 73, 71, 32,
     86, 73, 82, 84, 85, 65, 76, 32, 67, 68, 45, 82, 79, 77, 32, 32,
     49, 46, 48, 48]
  }

  /** The pages `mode_sense` has. */
  predicate ModeAsked(packet: seq<byte>)
    requires |packet| == 12
  {
    packet[2] / 64 != 3 && packet[3] == 0 && packet[1] in {0, 8} && packet[2] % 64 in {0x2a, 1, 0x3f}
  }

  function ModeAllocation(packet: seq<byte>): nat
    requires |packet| == 12
  {
    if packet[0] == 0x5a then Be16(packet[7], packet[8]) else packet[4]
  }

  /** `mode_sense`: error recovery and capabilities, behind a header that says write protected. */
  function ModeSense(packet: seq<byte>, locked: bool): (v: Verdict)
    requires |packet| == 12
    ensures !v.Reads? && (v.Refused? ==> v == BadField)
  {
    if !ModeAsked(packet) then BadField
    else Offer(ModePage(packet[0] == 0x5a, packet[2] % 64, packet[2] / 64 == 1, locked), ModeAllocation(packet))
  }

  function ModePage(ten: bool, page: nat, changeable: bool, locked: bool): (s: seq<byte>)
    ensures if ten then |s| >= 8 && Be16(s[0], s[1]) == |s| - 2 else |s| >= 4 && s[0] == |s| - 1
  {
    var body := Recovery(page) + Capabilities(page, changeable, locked);
    if ten then [0, |body| + 6, 0, 0x80, 0, 0, 0, 0] + body else [|body| + 3, 0, 0x80, 0] + body
  }

  function Recovery(page: nat): (s: seq<byte>)
    ensures |s| <= 8
  {
    if page == 1 || page == 0x3f then [1, 6, 0, 0, 0, 0, 0, 0] else []
  }

  function Capabilities(page: nat, changeable: bool, locked: bool): (s: seq<byte>)
    ensures |s| <= 20
  {
    if page != 0x2a && page != 0x3f then []
    else if changeable then [0x2a, 18, 0, 0, 0, 0, 0, 0, 0, 0, 0, 0, 0, 0, 0, 0, 0, 0, 0, 0]
    else [0x2a, 18, 0, 0, 0, 0, if locked then 0x2b else 0x29, 0, 2, 0xc2, 0, 0, 0, 2, 2, 0xc2, 0, 0, 0, 0]
  }

  // ---------------------------------------------------------------- the table of contents

  /** `address`: a block as a number, or in minutes, seconds and frames behind the lead-in of 150. */
  function Address(block: int, msf: bool): (s: seq<byte>)
    ensures |s| == 4
  {
    if !msf then Put32(block)
    else
      var b := (block + 150) % TWO32;
      [0, b / 4500 % 256, b / 75 % 60, b % 75]
  }

  /** The block a guest reads in an address. */
  function Located(s: seq<byte>, msf: bool): int
    requires |s| == 4
  {
    if msf then (s[1] as int * 60 + s[2] as int) * 75 + s[3] as int - 150 else Be32(s[0], s[1], s[2], s[3])
  }

  /** A block is read back from its address: always as a number, and in minutes, seconds and frames if and only if its
      minutes fit a byte. */
  lemma AddressRoundTrip(block: u32, msf: bool)
    ensures Located(Address(block, msf), msf) == block <==> !msf || block + 150 < 256 * 4500
  {
    if msf {
      var b := (block + 150) % TWO32;
      var m, f := b / 75, b % 75;
      assert b / 4500 == m / 60 && b == 75 * m + f && m == m / 60 * 60 + m % 60;
      var t := m / 60;
      assert t % 256 <= t && (t % 256 == t <==> t < 256);
    } else {
      Put32RoundTrip(block);
    }
  }

  function Control(t: Track): byte {
    if t.mode.Audio? then 0x10 else 0x14
  }

  /** One entry of the table. */
  function Line(control: byte, number: int, block: int, msf: bool): (s: seq<byte>)
    ensures |s| == 8
  {
    [0, control, number % 256, 0] + Address(block, msf)
  }

  /** Entries of the first `n` tracks from track `first` on. */
  function Lines(tracks: seq<Track>, n: nat, first: nat, msf: bool): (s: seq<byte>)
    requires n <= |tracks|
  {
    if n == 0 then []
    else
      var t := tracks[n - 1];
      Lines(tracks, n - 1, first, msf)
      + if first == 0xaa || t.number < first then [] else Line(Control(t), t.number, t.start, msf)
  }

  function TocHeader(length: nat, first: nat, last: nat): (s: seq<byte>)
    ensures |s| == 4
  {
    [(length + 2) / 256 % 256, (length + 2) % 256, first % 256, last % 256]
  }

  /** First track with data, or the first of all. */
  function FirstData(tracks: seq<Track>, n: nat): (i: nat)
    requires n <= |tracks| && tracks != []
    ensures i < |tracks|
    decreases |tracks| - n
  {
    if n == |tracks| then 0 else if tracks[n].mode.Audio? then FirstData(tracks, n + 1) else n
  }

  function Listing(tracks: seq<Track>, blocks: nat, first: nat, msf: bool): (s: seq<byte>)
    requires tracks != []
  {
    var last := tracks[|tracks| - 1];
    Lines(tracks, |tracks|, first, msf) + Line(Control(last), 0xaa, blocks, msf)
  }

  function Session(tracks: seq<Track>, msf: bool): (s: seq<byte>)
    requires tracks != []
    ensures |s| == 12
  {
    var t := tracks[FirstData(tracks, 0)];
    TocHeader(8, 1, 1) + Line(Control(t), t.number, t.start, msf)
  }

  function Contents(tracks: seq<Track>, blocks: nat, first: nat, msf: bool): (s: seq<byte>)
    requires tracks != []
  {
    var l := Listing(tracks, blocks, first, msf);
    TocHeader(|l|, tracks[0].number, tracks[|tracks| - 1].number) + l
  }

  /** The tables `toc` has. */
  predicate TocAsked(packet: seq<byte>, tracks: seq<Track>)
    requires |packet| == 12 && tracks != []
  {
    && packet[2] % 16 <= 1 && packet[1] in {0, 2}
    && (packet[2] % 16 == 0 ==>
          packet[6] in {0, 0xaa} || tracks[0].number <= packet[6] <= tracks[|tracks| - 1].number)
  }

  function TocPage(packet: seq<byte>, tracks: seq<Track>, blocks: nat): seq<byte>
    requires |packet| == 12 && tracks != []
  {
    if packet[2] % 16 == 1 then Session(tracks, packet[1] == 2)
    else Contents(tracks, blocks, packet[6], packet[1] == 2)
  }

  /** `toc`. */
  function Toc(packet: seq<byte>, tracks: seq<Track>, blocks: nat): (v: Verdict)
    requires |packet| == 12 && tracks != []
    ensures !v.Reads? && (v.Refused? ==> v == BadField)
  {
    if !TocAsked(packet, tracks) then BadField
    else Offer(TocPage(packet, tracks, blocks), Be16(packet[7], packet[8]))
  }

  /** `toc`, entry by entry. */
  method BuildToc(packet: seq<byte>, tracks: seq<Track>, blocks: nat) returns (ok: bool, buffer: seq<byte>)
    requires |packet| == 12 && tracks != []
    ensures ok <==> TocAsked(packet, tracks)
    ensures ok ==> buffer == TocPage(packet, tracks, blocks)
  {
    hide Line, TocHeader;
    var format, first, msf := packet[2] % 16, packet[6], packet[1] == 2;
    ok, buffer := false, [];
    if format > 1 || packet[1] !in {0, 2} {
      return;
    }
    var last := tracks[|tracks| - 1];
    if format == 1 {
      var i := 0;
      while i < |tracks| && tracks[i].mode.Audio?
        invariant i <= |tracks| && FirstData(tracks, i) == FirstData(tracks, 0)
      {
        i := i + 1;
      }
      if i == |tracks| {
        i := 0;
      }
      var t := tracks[i];
      return true, TocHeader(8, 1, 1) + Line(Control(t), t.number, t.start, msf);
    }
    if first != 0 && first != 0xaa && (first < tracks[0].number || first > last.number) {
      return;
    }
    for i := 0 to |tracks|
      invariant buffer == Lines(tracks, i, first, msf)
    {
      if !(first == 0xaa || tracks[i].number < first) {
        buffer := buffer + Line(Control(tracks[i]), tracks[i].number, tracks[i].start, msf);
      }
    }
    buffer := buffer + Line(Control(last), 0xaa, blocks, msf);
    buffer := TocHeader(|buffer|, tracks[0].number, last.number) + buffer;
    ok := true;
  }

  // ---------------------------------------------------------------- what a guest reads in the table

  /** Entry `k` of a table. */
  function Entry(page: seq<byte>, k: nat): (s: seq<byte>)
    requires 4 + 8 * k + 8 <= |page|
    ensures |s| == 8
  {
    page[4 + 8 * k..4 + 8 * k + 8]
  }

  /** The entry lists this track. */
  predicate Lists(entry: seq<byte>, t: Track, msf: bool)
    requires |entry| == 8
  {
    && entry[2] == t.number % 256 && (entry[1] == 0x10 <==> t.mode.Audio?)
    && (!msf || t.start + 150 < 256 * 4500 ==> Located(entry[4..], msf) == t.start)
  }

  /** Tracks left out of a table that begins with track `first`. */
  function Skipped(tracks: seq<Track>, first: nat): (n: nat)
    requires tracks != []
  {
    if first == 0xaa then |tracks| else if first <= tracks[0].number then 0 else first - tracks[0].number
  }

  /** The table lists, in order and with their places, the tracks from the one asked for on, and then the size of the
      disc; its header gives its length and the first and last track. */
  lemma ContentsTell(tracks: seq<Track>, blocks: u32, first: nat, msf: bool)
    requires tracks != [] && Numbered(tracks) && (first == 0xaa || first <= tracks[|tracks| - 1].number)
    ensures var s, k := Contents(tracks, blocks, first, msf), Skipped(tracks, first);
      && k <= |tracks| && |s| == 4 + 8 * (|tracks| - k + 1) && Be16(s[0], s[1]) == |s| - 2
      && s[2] == tracks[0].number && s[3] == tracks[|tracks| - 1].number
      && (forall i :: k <= i < |tracks| ==> Lists(Entry(s, i - k), tracks[i], msf))
      && var out := Entry(s, |tracks| - k);
        out[2] == 0xaa && (!msf || blocks + 150 < 256 * 4500 ==> Located(out[4..], msf) == blocks)
  {
    hide Lists, Line, Located, Lines, Entry, TocHeader, Row;
    var s, k, n := Contents(tracks, blocks, first, msf), Skipped(tracks, first), |tracks|;
    var l, last := Lines(tracks, n, first, msf), tracks[n - 1];
    LinesTell(tracks, n, first, msf);
    assert |tracks| <= 99;
    HeaderTells(|l| + 8, tracks[0].number, last.number);
    var h, out := TocHeader(|l| + 8, tracks[0].number, last.number), Line(Control(last), 0xaa, blocks, msf);
    assert s == h + l + out;
    forall i | k <= i < n ensures Lists(Entry(s, i - k), tracks[i], msf) {
      EntryOf(h, l, out, i - k);
    }
    EntryOf(h, l, out, n - k);
    LineTells(Control(last), 0xaa, blocks, msf);
  }

  /** Entries lie one behind the other. */
  lemma EntryOf(h: seq<byte>, l: seq<byte>, out: seq<byte>, k: nat)
    requires |h| == 4 && |out| == 8 && 8 * k <= |l| && |l| % 8 == 0
    ensures Entry(h + l + out, k) == if 8 * k == |l| then out else Row(l, k)
  {
  }

  lemma HeaderTells(length: nat, first: nat, last: nat)
    requires length < 1000 && first < 256 && last < 256
    ensures var s := TocHeader(length, first, last); Be16(s[0], s[1]) == length + 2 && s[2] == first && s[3] == last
  {
  }

  lemma LineTells(control: byte, number: nat, block: u32, msf: bool)
    ensures var s := Line(control, number, block, msf);
      && s[1] == control && s[2] == number % 256
      && (!msf || block + 150 < 256 * 4500 ==> Located(s[4..], msf) == block)
  {
    hide Address, Located;
    AddressRoundTrip(block, msf);
    assert Line(control, number, block, msf)[4..] == Address(block, msf);
  }

  /** Row `k` of a list of entries. */
  function Row(s: seq<byte>, k: nat): (r: seq<byte>)
    requires 8 * k + 8 <= |s|
    ensures |r| == 8
  {
    s[8 * k..8 * k + 8]
  }

  lemma RowAppended(s: seq<byte>, line: seq<byte>, k: nat)
    requires |line| == 8 && 8 * k <= |s| && |s| % 8 == 0
    ensures Row(s + line, k) == if 8 * k == |s| then line else Row(s, k)
  {
  }

  lemma {:induction false} LinesTell(tracks: seq<Track>, n: nat, first: nat, msf: bool)
    requires n <= |tracks| && tracks != [] && Numbered(tracks)
    ensures var s, k := Lines(tracks, n, first, msf), Skipped(tracks, first);
      && |s| == 8 * (if n <= k then 0 else n - k)
      && forall i :: k <= i < n ==> Lists(Row(s, i - k), tracks[i], msf)
  {
    hide Lists, Line, Row;
    if n > 0 {
      var k, t := Skipped(tracks, first), tracks[n - 1];
      LinesTell(tracks, n - 1, first, msf);
      TrackTells(t, msf);
      var before, line := Lines(tracks, n - 1, first, msf), Line(Control(t), t.number, t.start, msf);
      assert first == 0xaa || t.number < first <==> n - 1 < k;
      if n - 1 >= k {
        forall i | k <= i < n ensures Lists(Row(before + line, i - k), tracks[i], msf) {
          RowAppended(before, line, i - k);
        }
      }
    }
  }

  lemma TrackTells(t: Track, msf: bool)
    ensures Lists(Line(Control(t), t.number, t.start, msf), t, msf)
  {
    hide Line, Located;
    LineTells(Control(t), t.number, t.start, msf);
  }
}
