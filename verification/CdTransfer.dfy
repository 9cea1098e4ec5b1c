/** One READ of the ATAPI drive as values: what the guest sees of it, how far it has got, and what each data phase
    adds. */
module CdTransfer {
  import opened Basics
  import opened Storage
  import opened FatChain
  import opened CdTypes
  import opened CdLayout
  import opened CdRead

  datatype Flag = End | Irq | Ready | Request | Packet | Error | Abort

  /** What the guest sees on the IDE interface. */
  datatype Event =
    | TaskFile(error: nat, count: nat, number: nat, low: nat, high: nat, head: nat)
    | Status(flags: set<Flag>)
    | Data(bytes: seq<byte>)

  datatype Reply = Accepted | Slot | Locked | Busy | Rejected

  /** What the CUE/ISO parser hands over: a sheet over files on the card, or a failure. */
  datatype Parse = Parse(valid: bool, files: seq<ImageFile>, tracks: seq<Track>)
  {
    ghost predicate Sound(g: Geometry, disk: seq<Sector>)
      requires g.Valid()
    {
      valid ==> Parsed(files, tracks) && forall i :: 0 <= i < |files| ==>
        WellFormed(g, disk, files[i].cluster, files[i].size)
    }
  }

  function Be16(hi: byte, lo: byte): nat {
    256 * hi as nat + lo as nat
  }

  function Be32(a: byte, b: byte, c: byte, d: byte): nat {
    65536 * Be16(a, b) + Be16(c, d)
  }

  /** Data phases one block is cut into. */
  function PhasesPerBlock(limit: nat): nat
    requires limit > 0
  {
    (USER + limit - 1) / limit
  }

  /** A laid-out disc and the card it is stored on. */
  datatype Disc = Disc(g: Geometry, card: seq<Sector>, files: seq<ImageFile>, tracks: seq<Track>, blocks: u32)
  {
    predicate Valid() {
      g.clusterSize > 0 && LaidOut(files, tracks, blocks)
    }

    function Block(lba: nat): (r: (Outcome, seq<byte>))
      requires Valid()
      ensures r.0.Good? ==> |r.1| == USER
    {
      CdRead.Block(g, card, files, tracks, lba)
    }

    predicate AllGood(lba: nat, count: nat)
      requires Valid()
    {
      forall k :: lba <= k < lba + count ==> Block(k).0.Good?
    }

    /** The user data of `count` blocks from `lba` on. */
    function UserData(lba: nat, count: nat): (s: seq<byte>)
      requires Valid()
    {
      if count == 0 then [] else UserData(lba, count - 1) + Block(lba + count - 1).1
    }
  }

  /** A disc made from this sheet over these files. */
  predicate Made(parse: Parse, d: Disc) {
    d.blocks > 0 && d.files == parse.files && SameCue(parse.tracks, d.tracks)
  }

  /** Where the transfer stands. */
  datatype Cursor = Cursor(lba: nat, remaining: nat, limit: nat, length: nat, position: nat, buffer: seq<byte>)

  /** How far a READ has got. */
  datatype Progress = Progress(first: nat, count: nat, sent: seq<byte>, phases: seq<nat>)
  {
    function Sent(bytes: seq<byte>): Progress {
      this.(sent := sent + bytes, phases := phases + [|bytes|])
    }
  }

  /** No data event from `from` on. */
  predicate NoData(e: seq<Event>, from: nat) {
    from <= |e| && forall i :: from <= i < |e| ==> !e[i].Data?
  }

  /** More events, none of them data. */
  predicate Adds(e: seq<Event>, e': seq<Event>) {
    e <= e' && NoData(e', |e|)
  }

  /** More events, their only data the given bytes. */
  predicate AddsOnly(e: seq<Event>, e': seq<Event>, bytes: seq<byte>) {
    e <= e' && forall i :: |e| <= i < |e'| && e'[i].Data? ==> e'[i].bytes == bytes
  }

  lemma NothingNew(e: seq<Event>)
    ensures NoData(e, |e|) && Adds(e, e)
  {
  }

  lemma AbortAdds(e: seq<Event>)
    ensures Adds(e, e + [Status({End, Abort})])
  {
  }

  /** A command that ends in an error: the sense key, and the status that goes with it. */
  function ErrorEvents(key: nat, head: nat): (e: seq<Event>)
    ensures |e| == 2 && !e[0].Data? && !e[1].Data?
  {
    [TaskFile(16 * key + 4, 3, 0, 0, 0, head), Status({End, Irq, Error, Abort})]
  }

  /** The byte count, the data, and the interrupt that ends a data phase; the last carries END. */
  function DataPhase(bytes: seq<byte>, last: bool, head: nat): (e: seq<Event>)
    ensures |e| == 3 && e[1] == Data(bytes) && e[2] == Status(if last then {Irq, End} else {Irq})
  {
    [TaskFile(0, 2, 0, |bytes| % 256, |bytes| / 256, head), Data(bytes), Status(if last then {Irq, End} else {Irq})]
  }

  /** The step added exactly one data phase. */
  predicate OnePhase(e: seq<Event>, e': seq<Event>, last: bool, head: nat) {
    && |e'| == |e| + 3 && e'[|e| + 1].Data?
    && e' == e + DataPhase(e'[|e| + 1].bytes, last, head)
  }

  /** One data phase took the READ from `r` to `r'`. */
  predicate PhaseSent(r: Progress, r': Progress, e: seq<Event>, e': seq<Event>, last: bool, head: nat) {
    && |r.sent| <= |r'.sent|
    && r' == r.Sent(r'.sent[|r.sent|..])
    && e' == e + DataPhase(r'.sent[|r.sent|..], last, head)
  }

  /** `q` phases into a block, the position is where full phases put it. */
  predicate InBlock(q: int, limit: nat, position: nat)
    requires limit > 0
  {
    0 <= q <= PhasesPerBlock(limit) && position == Least(Span(q, limit), USER)
  }

  /** A READ in progress: what has been sent is exactly the data up to the cursor, in even phases no
      longer than the limit, as many per block as the limit calls for. */
  predicate Following(d: Disc, c: Cursor, r: Progress)
    requires d.Valid()
  {
    var done := r.count - c.remaining;
    && 2 <= c.limit <= USER && c.limit % 2 == 0
    && 0 <= done && r.count > 0 && r.first + r.count <= d.blocks
    && c.lba == r.first + done
    && d.AllGood(r.first, done)
    && c.position <= c.length <= |c.buffer|
    && (if done == 0 then c.position == c.length == 0 && r.sent == [] && r.phases == []
        else
          && c.length == |c.buffer| == USER
          && c.buffer == d.Block(c.lba - 1).1
          && r.sent == d.UserData(r.first, done - 1) + c.buffer[..c.position]
          && InBlock(|r.phases| - Span(done - 1, PhasesPerBlock(c.limit)), c.limit, c.position))
    && EvenPhases(r.phases, c.limit)
  }

  predicate EvenPhases(phases: seq<nat>, limit: nat) {
    forall i :: 0 <= i < |phases| ==> 0 < phases[i] <= limit && phases[i] % 2 == 0
  }

  /** The READ is complete. */
  predicate Finished(d: Disc, limit: nat, r: Progress)
    requires d.Valid() && limit > 0
  {
    && d.AllGood(r.first, r.count)
    && r.sent == d.UserData(r.first, r.count)
    && |r.phases| == Span(r.count, PhasesPerBlock(limit))
    && EvenPhases(r.phases, limit)
  }

  lemma StartFollowing(d: Disc, c: Cursor, r: Progress)
    requires d.Valid() && 2 <= c.limit <= USER && c.limit % 2 == 0
    requires 0 < c.remaining && c.lba + c.remaining <= d.blocks && c.length == c.position == 0
    requires r == Progress(c.lba, c.remaining, [], [])
    ensures Following(d, c, r)
  {
  }

  /** Taking in the next block once the buffer is empty. */
  lemma TakeBlock(d: Disc, c: Cursor, r: Progress)
    requires d.Valid() && Following(d, c, r) && c.position == c.length && c.remaining > 0
    requires d.Block(c.lba).0.Good?
    ensures Following(d,
              c.(lba := c.lba + 1, remaining := c.remaining - 1, position := 0, length := USER,
                buffer := d.Block(c.lba).1), r)
    ensures c.lba < d.blocks
  {
    hide Disc.Block, Disc.Valid, Span;
    var done, k := r.count - c.remaining, PhasesPerBlock(c.limit);
    if done > 0 {
      FullBlock(|r.phases| - Span(done - 1, k), c.limit);
      SpanNext(done - 1, k);
      assert c.buffer[..USER] == c.buffer;
    }
    SpanZero(k);
    SpanZero(c.limit);
  }

  lemma BlockInRange(d: Disc, c: Cursor, r: Progress)
    requires d.Valid() && Following(d, c, r) && c.remaining > 0
    ensures c.lba < d.blocks
  {
  }

  /** One data phase. */
  lemma SendPhase(d: Disc, c: Cursor, r: Progress, bytes: nat)
    requires d.Valid() && Following(d, c, r) && c.position < c.length
    requires bytes == Least(c.length - c.position, c.limit)
    ensures var c' := c.(position := c.position + bytes);
            var r' := r.Sent(c.buffer[c.position..c'.position]);
            && Following(d, c', r')
            && (c'.position == c'.length && c.remaining == 0 ==> Finished(d, c.limit, r'))
  {
    hide Disc.Block, Disc.Valid, Disc.AllGood, Span, EvenPhases, PhasesPerBlock, InBlock, Least;
    MinFacts(c.length - c.position, c.limit);
    var done, k := r.count - c.remaining, PhasesPerBlock(c.limit);
    var q := |r.phases| - Span(done - 1, k);
    PartBlock(q, c.limit, c.position);
    SpanNext(done - 1, k);
    assert c.buffer[..c.position] + c.buffer[c.position..c.position + bytes] == c.buffer[..c.position + bytes];
    assert c.buffer[..USER] == c.buffer;
    EvenMore(r.phases, c.limit, bytes);
  }

  lemma MinFacts(a: int, b: int)
    ensures Least(a, b) == if a < b then a else b
  {
  }

  lemma EvenMore(phases: seq<nat>, limit: nat, bytes: nat)
    requires EvenPhases(phases, limit) && 0 < bytes <= limit && bytes % 2 == 0
    ensures EvenPhases(phases + [bytes], limit)
  {
  }

  lemma SpanZero(k: nat)
    ensures Span(0, k) == 0
  {
  }

  lemma SpanNext(n: int, k: nat)
    ensures Span(n + 1, k) == Span(n, k) + k
  {
  }

  /** A block is used up after exactly the phases the limit calls for. */
  lemma FullBlock(q: int, limit: nat)
    requires limit > 0 && InBlock(q, limit, USER)
    ensures q == PhasesPerBlock(limit)
  {
    if q < PhasesPerBlock(limit) {
      MulLe(limit, q + 1, PhasesPerBlock(limit));
    }
  }

  lemma PartBlock(q: int, limit: nat, position: nat)
    requires limit > 0 && InBlock(q, limit, position) && position < USER
    ensures q < PhasesPerBlock(limit)
    ensures InBlock(q + 1, limit, position + Least(USER - position, limit))
    ensures limit % 2 == 0 ==> position % 2 == 0
    ensures position + limit >= USER ==> q + 1 == PhasesPerBlock(limit)
  {
    var k := PhasesPerBlock(limit);
    assert limit * k >= USER;
    if q >= k {
      MulLe(limit, k, q);
    }
    if position + limit >= USER && q + 1 < k {
      MulLe(limit, q + 2, k);
    }
    EvenProduct(q, limit);
  }

  lemma EvenProduct(q: nat, limit: nat)
    ensures limit % 2 == 0 ==> Span(q, limit) % 2 == 0
  {
    if limit % 2 == 0 {
      assert q * limit == 2 * (q * (limit / 2));
    }
  }

  /** When a READ packet starts a transfer: a well-formed packet with blocks to read, all of them on a
      disc whose last attention condition has been reported. */
  predicate ReadAccepted(packet: seq<byte>, attention: nat, loaded: bool, blocks: nat)
    requires |packet| == 12
  {
    && packet[0] in {0x28, 0xa8}
    && packet[1] / 32 == 0 && packet[1] % 8 == 0
    && attention == 0 && loaded
    && 0 < Requested(packet)
    && Be32(packet[2], packet[3], packet[4], packet[5]) + Requested(packet) <= blocks
  }

  /** Blocks a READ packet asks for. */
  function Requested(packet: seq<byte>): nat
    requires |packet| == 12
  {
    if packet[0] == 0x28 then Be16(packet[7], packet[8]) else Be32(packet[6], packet[7], packet[8], packet[9])
  }

  /** READ(10) keeps its count in bytes 7 and 8, READ(12) in bytes 6 to 9, both most significant byte first. */
  lemma RequestedCount(packet: seq<byte>)
    requires |packet| == 12
    ensures packet[0] == 0x28 ==> Requested(packet) == 0x100 * packet[7] as nat + packet[8] as nat
    ensures packet[0] == 0xa8 ==>
              Requested(packet) == 0x100_0000 * packet[6] as nat + 0x1_0000 * packet[7] as nat
                                   + 0x100 * packet[8] as nat + packet[9] as nat
  {
  }

  /** The even transfer limit a task file asks for. */
  function Limit(hi: byte, lo: byte): (n: nat)
    ensures n <= 2048 && n % 2 == 0
  {
    var asked := Be16(hi, lo);
    if asked == 0 || asked >= 2048 then 2048 else asked - asked % 2
  }

  /** The limit keeps to the byte count a task file asks for: all of it that is even, and 2048 for none or for more. */
  predicate Grants(tfr: seq<byte>, limit: nat)
    requires |tfr| == 8
  {
    var asked := tfr[4] as nat + 256 * tfr[5] as nat;
    && limit % 2 == 0 && 2 <= limit <= 2048
    && (asked == 0 || asked >= 2048 ==> limit == 2048)
    && (0 < asked < 2048 ==> limit <= asked <= limit + 1)
  }

  lemma LimitGrants(tfr: seq<byte>)
    requires |tfr| == 8 && !(tfr[4] == 1 && tfr[5] == 0)
    ensures Grants(tfr, Limit(tfr[5], tfr[4]))
  {
  }

  /** No phase is longer than the byte count the task file asks for, or than a block. */
  predicate AllFit(tfr: seq<byte>, phases: seq<nat>)
    requires |tfr| == 8
  {
    var asked := tfr[4] as nat + 256 * tfr[5] as nat;
    forall k :: 0 <= k < |phases| ==> phases[k] <= 2048 && (asked != 0 ==> phases[k] <= asked)
  }

  lemma FitsLimit(tfr: seq<byte>, limit: nat, phases: seq<nat>)
    requires |tfr| == 8 && Grants(tfr, limit) && forall k :: 0 <= k < |phases| ==> phases[k] <= limit
    ensures AllFit(tfr, phases)
  {
  }

  /** What the guest reads of a data phase: its length in the byte count registers, the data, and END with the
      interrupt only if it is the last; of an error, the sense key in the upper half of the error register. */
  lemma EventsTell(bytes: seq<byte>, last: bool, key: nat, unit: int)
    requires |bytes| < 0x1_0000
    ensures var p := DataPhase(bytes, last, HeadOf(unit));
      && p[0].TaskFile? && p[0].error == 0 && p[0].count == 2 && p[0].number == 0 && p[0].low < 256
      && p[0].high < 256 && p[0].low + 256 * p[0].high == |bytes|
      && p[0].head == (if unit % 2 == 0 then 0xA0 else 0xB0)
      && p[1] == Data(bytes) && p[2].Status? && Irq in p[2].flags && (End in p[2].flags <==> last)
      && p[2].flags <= {Irq, End}
    ensures var e := ErrorEvents(key, HeadOf(unit));
      && e[0] == TaskFile(0x10 * key + 0x04, 3, 0, 0, 0, if unit % 2 == 0 then 0xA0 else 0xB0)
      && e[1] == Status({End, Irq, Error, Abort})
  {
  }

  /** When CDCommand takes a packet command. */
  predicate PacketCommand(tfr: seq<byte>)
    requires |tfr| == 8
  {
    tfr[7] == 0xa0 && tfr[1] % 4 == 0 && !(tfr[4] == 1 && tfr[5] == 0)
  }

  function HeadOf(unit: int): nat {
    if unit % 2 == 1 then 0xB0 else 0xA0
  }

  /** What has been sent of a READ in progress is a prefix of the data asked for. */
  lemma FollowingPrefix(d: Disc, c: Cursor, r: Progress)
    requires d.Valid() && Following(d, c, r)
    ensures r.sent <= d.UserData(r.first, r.count) && EvenPhases(r.phases, c.limit)
  {
    hide Disc.Block, Disc.Valid, EvenPhases, InBlock;
    var done := r.count - c.remaining;
    if done > 0 {
      UserDataPrefix(d, r.first, done, r.count);
      assert d.UserData(r.first, done) == d.UserData(r.first, done - 1) + c.buffer;
    }
  }

  lemma {:induction false} UserDataPrefix(d: Disc, lba: nat, m: nat, n: nat)
    requires d.Valid() && m <= n
    ensures d.UserData(lba, m) <= d.UserData(lba, n)
  {
    hide Disc.Block, Disc.Valid;
    if m < n {
      UserDataPrefix(d, lba, m, n - 1);
    }
  }
}
