/** The floppy track encoder and decoder, byte by byte over the port to the drive logic. */
module Floppy {
  import opened Basics
  import opened FloppyCodec

  const SYNC_HIGH: bv8 := 0x44
  const SYNC_LOW: bv8 := 0x89

  /** Most words one status answer can announce. */
  const MOST: nat := 0x3FFF

  /** What the drive logic answers before a sector: whether the guest reads, which track, and its synchronization
      word. */
  datatype Request = Request(reading: bool, track: bv8, high: bv8, low: bv8)

  /** The first `n` requests ask for the track. */
  predicate Asked(requests: seq<Request>, track: bv8, n: nat) {
    n <= |requests| && forall i :: 0 <= i < n ==> requests[i].reading && requests[i].track == track
  }

  /** How many requests are served before one asks for something else. */
  function Served(requests: seq<Request>, track: bv8): (n: nat)
    ensures Asked(requests, track, n) && (n < |requests| ==> !Asked(requests, track, n + 1))
  {
    if requests == [] || !requests[0].reading || requests[0].track != track then 0
    else
      assert forall i :: 0 < i < |requests| ==> requests[i] == requests[1..][i - 1];
      Served(requests[1..], track) + 1
  }

  lemma ServedFrom(requests: seq<Request>, track: bv8, n: nat)
    requires Asked(requests, track, n)
    ensures n <= Served(requests, track)
    ensures n < |requests| && !(requests[n].reading && requests[n].track == track) ==> n == Served(requests, track)
    ensures n == |requests| ==> n == Served(requests, track)
  {
    var k := Served(requests, track);
    if k < n {
      assert Asked(requests, track, k + 1);
    }
  }

  /** Some loaders ask for words that are not on any track: the usual word is sent instead. */
  function Usual(high: bv8, low: bv8): (bv8, bv8) {
    if (high, low) in {(0, 0), (0x89, 0x14), (0xA1, 0x44)} then (SYNC_HIGH, SYNC_LOW) else (high, low)
  }

  /** Exactly three words are replaced. */
  lemma UsualWords(high: bv8, low: bv8)
    ensures Usual(high, low) == if (high == 0 && low == 0) || (high == 0x89 && low == 0x14)
                                   || (high == 0xA1 && low == 0x44) then (0x44, 0x89) else (high, low)
  {
  }

  function Syncs(requests: seq<Request>): (s: seq<(bv8, bv8)>)
    ensures |s| == |requests|
    ensures forall i :: 0 <= i < |s| ==> s[i] == Usual(requests[i].high, requests[i].low)
  {
    seq(|requests|, i requires 0 <= i < |requests| => Usual(requests[i].high, requests[i].low))
  }

  lemma SyncsStep(requests: seq<Request>, n: nat)
    requires n <= |requests|
    ensures Syncs(requests[..n]) == if n == 0 then [] else
        Syncs(requests[..n - 1]) + [Usual(requests[n - 1].high, requests[n - 1].low)]
  {
  }

  class Port {
    /** Bytes sent to the drive, and bytes written by the guest with the place reached in them. */
    var wire: Stream
    var fifo: Stream
    var pos: nat
    /** The environment's promise: the guest keeps writing the track that is selected, and all words are there. */
    var steady: bool
    /** The track read last, -1 if there is none, and the sector its next read begins with. */
    var lastTrack: int
    var nextSector: nat

    ghost predicate Valid()
      reads this
    {
      pos <= |fifo|
    }

    constructor (fifo: Stream)
      ensures Valid() && wire == [] && this.fifo == fifo && pos == 0 && !steady
      ensures lastTrack == -1 && nextSector == 0
    {
      wire, this.fifo, pos, steady, lastTrack, nextSector := [], fifo, 0, false, -1, 0;
    }

    method Send(b: bv8)
      modifies this`wire
      ensures wire == old(wire) + [b]
    {
      wire := wire + [b];
    }

    method Receive() returns (b: bv8)
      requires Valid() && pos < |fifo|
      modifies this`pos
      ensures Valid() && pos == old(pos) + 1 && b == fifo[old(pos)]
    {
      b := fifo[pos];
      pos := pos + 1;
    }

    /** The status the drive logic answers: whether the guest writes the selected track, how many words wait, and
        whether more may come. */
    method Poll() returns (writing: bool, words: nat, more: bool)
      requires Valid()
      ensures words <= 0x3FFF && 2 * words <= |fifo| - pos
      ensures steady ==> writing && words == Least((|fifo| - pos) / 2, MOST)
    {
      writing, words, more := *, *, *;
      if steady {
        writing, words := true, Least((|fifo| - pos) / 2, MOST);
      } else {
        words := Least(words, Least((|fifo| - pos) / 2, MOST));
      }
    }

    /** SendSector. */
    method SendSector(data: Stream, sector: bv8, track: bv8, syncHigh: bv8, syncLow: bv8)
      requires |data| == SECTOR
      modifies this`wire
      ensures wire == old(wire) + SectorBytes(data, sector, track, syncHigh, syncLow)
    {
      hide HeaderField(), DataField(), Clocks();
      SendClocks(4);
      Send(syncHigh);
      Send(syncLow);
      Send(syncHigh);
      Send(syncLow);
      SendHeader(sector, track);
      SendData(data);
    }

    /** SendGap. */
    method SendGap()
      modifies this`wire
      ensures wire == old(wire) + Clocks(GAP_SIZE)
    {
      SendClocks(GAP_SIZE);
    }

    /** ReadTrack: sends sectors for as long as the guest asks for this track, from the first sector if another track
        came before and from where the last call stopped otherwise, and remembers the place. */
    method ReadTrack(image: seq<Stream>, track: bv8, requests: seq<Request>)
      requires Image(image) && nextSector < SECTORS
      modifies this`wire, this`lastTrack, this`nextSector
      ensures var from, n := if old(lastTrack) == track as int then old(nextSector) else 0, Served(requests, track);
        && wire == old(wire) + Rotation(image, track, from, Syncs(requests[..n]))
        && nextSector == Turned(from, n) && lastTrack == track as int
    {
      hide Passing(), Served(), Syncs(), Rotation(), Turned();
      SectorAfter(nextSector, 0);
      SectorAfter(0, 0);
      if lastTrack != track as int {
        lastTrack, nextSector := track as int, 0;
      }
      ghost var from, before := nextSector, wire;
      var i := 0;
      RotationStep(image, track, from, [], (0, 0));
      SyncsStep(requests, 0);
      ServedFrom(requests, track, 0);
      while i < |requests| && requests[i].track == track && requests[i].reading
        invariant i <= |requests| && nextSector == Turned(from, i) && lastTrack == track as int
        invariant Asked(requests, track, i) && wire == before + Rotation(image, track, from, Syncs(requests[..i]))
      {
        SendNext(image, track, requests, i, from, before);
        i := i + 1;
      }
      ServedFrom(requests, track, i);
    }

    /** The sector under the head, for request `i`. */
    method SendNext(image: seq<Stream>, track: bv8, requests: seq<Request>, i: nat, ghost from: nat,
        ghost before: Stream)
      requires Image(image) && i < |requests| && nextSector == Turned(from, i)
      requires wire == before + Rotation(image, track, from, Syncs(requests[..i]))
      modifies this`wire, this`nextSector
      ensures nextSector == Turned(from, i + 1)
      ensures wire == before + Rotation(image, track, from, Syncs(requests[..i + 1]))
    {
      hide Passing, Syncs, Rotation, Turned;
      var sector := nextSector;
      var sync := Usual(requests[i].high, requests[i].low);
      SyncsStep(requests, i + 1);
      SectorAfter(from, i);
      RotationStep(image, track, from, Syncs(requests[..i]), sync);
      SendPassing(image, track, sector, sync);
      nextSector := if sector + 1 < SECTORS then sector + 1 else 0;
    }

    method SendPassing(image: seq<Stream>, track: bv8, sector: nat, sync: (bv8, bv8))
      requires Image(image) && sector < SECTORS
      modifies this`wire
      ensures wire == old(wire) + Passing(image, track, sector, sync)
    {
      hide SectorBytes(), Clocks();
      SendSector(image[sector], sector as bv8, track, sync.0, sync.1);
      if sector == SECTORS - 1 {
        SendGap();
      }
    }

    method SendClocks(n: nat)
      modifies this`wire
      ensures wire == old(wire) + Clocks(n)
    {
      for i := 0 to n
        invariant wire == old(wire) + Clocks(i)
      {
        Send(CLOCK);
      }
    }

    method SendFour(a: bv8, b: bv8, c: bv8, d: bv8)
      modifies this`wire
      ensures wire == old(wire) + [a, b, c, d]
    {
      Send(a);
      Send(b);
      Send(c);
      Send(d);
    }

    /** Odd halves, even halves, label, and their checksum. */
    method SendHeader(sector: bv8, track: bv8)
      modifies this`wire
      ensures wire == old(wire) + HeaderField(track, sector)
    {
      hide Odd(), Even(), Xor(), Clocks(), Info(), CheckField();
      var info := Info(track, sector);
      var c0, c1, c2, c3 := Odd(info[0]), Odd(info[1]), Odd(info[2]), Odd(info[3]);
      SendFour(c0, c1, c2, c3);
      SendFour(Even(info[0]), Even(info[1]), Even(info[2]), Even(info[3]));
      c0, c1 := Xor(c0, Even(info[0])), Xor(c1, Even(info[1]));
      c2, c3 := Xor(c2, Even(info[2])), Xor(c3, Even(info[3]));
      SendClocks(LABEL);
      SendChecksum(c0, c1, c2, c3);
    }

    method SendChecksum(a: bv8, b: bv8, c: bv8, d: bv8)
      modifies this`wire
      ensures wire == old(wire) + CheckField(a, b, c, d)
    {
      hide Clocked();
      SendFour(CLOCK, CLOCK, CLOCK, CLOCK);
      SendFour(Clocked(a), Clocked(b), Clocked(c), Clocked(d));
    }

    method SendData(data: Stream)
      requires |data| == SECTOR
      modifies this`wire
      ensures wire == old(wire) + DataField(data)
    {
      hide CheckField(), Folded(), Odds(), Evens();
      var checksum := DataChecksum(data);
      SendChecksum(checksum[0], checksum[1], checksum[2], checksum[3]);
      SendHalves(data);
    }

    method SendHalves(data: Stream)
      modifies this`wire
      ensures wire == old(wire) + Odds(data) + Evens(data)
    {
      hide Half(), Clocked();
      ghost var sent := wire;
      for i := 0 to |data|
        invariant wire == sent + Odds(data[..i])
      {
        assert data[..i + 1][..i] == data[..i];
        Send(Clocked(Half(data[i])));
      }
      assert data[..|data|] == data;
      for i := 0 to |data|
        invariant wire == sent + Odds(data) + Evens(data[..i])
      {
        assert data[..i + 1][..i] == data[..i];
        Send(Clocked(data[i]));
      }
    }

    /** FindSync: stops behind the first synchronization word, reading word by word. The source asks for words until
        the guest stops writing; `patience` bounds how often. */
    method FindSync(patience: nat) returns (found: bool)
      requires Valid()
      modifies this`pos
      ensures Valid() && old(pos) <= pos
      ensures found ==> exists n: nat :: pos == old(pos) + 2 * n + 2 && FirstSync(old(pos), n)
      ensures steady ==> forall n: nat :: n < patience * MOST && FirstSync(old(pos), n) ==> found
    {
      found := false;
      ghost var n: nat := 0;
      for k := 0 to patience
        invariant Valid() && pos == old(pos) + 2 * n && !found && NoSync(old(pos), n)
        invariant steady ==> n == Least((|fifo| - old(pos)) / 2, k * MOST)
      {
        var writing, words, more := Poll();
        if !writing || (words == 0 && !more) {
          return;
        }
        found := SkipWords(words, old(pos), n);
        if found {
          return;
        }
        n := n + words;
      }
    }

    /** Reads words up to the first synchronization word among them. */
    method SkipWords(words: nat, ghost p: nat, ghost n: nat) returns (found: bool)
      requires Valid() && pos == p + 2 * n && 2 * words <= |fifo| - pos && NoSync(p, n)
      modifies this`pos
      ensures Valid() && old(pos) <= pos
      ensures !found ==> pos == old(pos) + 2 * words && NoSync(p, n + words)
      ensures found ==> exists j: nat :: pos == p + 2 * j + 2 && FirstSync(p, j)
    {
      ghost var j := n;
      var left: nat := words;
      while left > 0
        invariant Valid() && pos == p + 2 * j && left <= words && j == n + words - left && NoSync(p, j)
      {
        var c3 := Receive();
        var c4 := Receive();
        if c3 == SYNC_HIGH && c4 == SYNC_LOW {
          assert FirstSync(p, j);
          return true;
        }
        j := j + 1;
        left := left - 1;
      }
      return false;
    }

    ghost predicate NoSync(p: nat, n: nat)
      reads this`fifo
    {
      forall j :: 0 <= j < n ==> !SyncAt(fifo, p + 2 * j)
    }

    /** Word `n` from `p` on is the first synchronization word. */
    ghost predicate FirstSync(p: nat, n: nat)
      reads this`fifo
    {
      SyncAt(fifo, p + 2 * n) && NoSync(p, n)
    }

    /** Takes four bytes into the sum of the four columns. */
    method SumGroup(checksum: array<bv8>, ghost s: Stream, ghost base: nat, ghost n: nat) returns (q: Stream)
      requires Valid() && checksum.Length == 4 && 4 * n + 4 <= |s| && base + |s| <= |fifo| && pos == base + 4 * n
      requires s == fifo[base..base + |s|] && forall c :: 0 <= c < 4 ==> checksum[c] == Column(s, c, n)
      modifies this`pos, checksum
      ensures Valid() && pos == base + 4 * n + 4 && q == s[4 * n..4 * n + 4]
      ensures forall c :: 0 <= c < 4 ==> checksum[c] == Column(s, c, n + 1)
    {
      hide Xor();
      q := [];
      for k := 0 to 4
        invariant Valid() && pos == base + 4 * n + k && q == s[4 * n..4 * n + k]
        invariant forall c :: 0 <= c < 4 ==> checksum[c] == Column(s, c, if c < k then n + 1 else n)
      {
        assert fifo[pos] == s[4 * n + k];
        var b := Receive();
        checksum[k] := Xor(checksum[k], b);
        q := q + [b];
      }
    }

    /** Reads a checksum field and compares. */
    method SameChecksum(checksum: array<bv8>) returns (same: bool)
      requires Valid() && checksum.Length == 4 && pos + 8 <= |fifo|
      modifies this`pos
      ensures Valid() && pos == old(pos) + 8
      ensures same <==> forall c :: 0 <= c < 4 ==> Checked(fifo[old(pos)..old(pos) + 8], c) == Even(checksum[c])
    {
      hide Join(), Even();
      var c := new bv8[4](_ => 0);
      ghost var f := fifo[pos..pos + 8];
      ReadChecksum(c);
      same := c[0] == Even(checksum[0]) && c[1] == Even(checksum[1]) && c[2] == Even(checksum[2])
        && c[3] == Even(checksum[3]);
      assert forall k :: 0 <= k < 4 ==> Checked(f, k) == c[k];
      assert same ==> Checked(f, 0) == Even(checksum[0]);
    }

    method ReadChecksum(c: array<bv8>)
      requires Valid() && c.Length == 4 && pos + 8 <= |fifo|
      modifies this`pos, c
      ensures Valid() && pos == old(pos) + 8
      ensures forall k :: 0 <= k < 4 ==> c[k] == Checked(fifo[old(pos)..old(pos) + 8], k)
    {
      hide Join(), High(), With();
      ghost var f := fifo[pos..pos + 8];
      for k := 0 to 4
        invariant Valid() && pos == old(pos) + k && forall j :: 0 <= j < k ==> c[j] == High(f[j])
      {
        var b := Receive();
        c[k] := High(b);
      }
      for k := 0 to 4
        invariant Valid() && pos == old(pos) + 4 + k
        invariant forall j :: 0 <= j < k ==> c[j] == Join(f[j], f[4 + j])
        invariant forall j :: k <= j < 4 ==> c[j] == High(f[j])
      {
        var b := Receive();
        assert b == f[4 + k] && c[k] == High(f[k]);
        JoinParts(f[k], f[4 + k]);
        c[k] := With(c[k], b);
      }
    }

    /** GetHeader: the rest of a sector header, once enough words wait. */
    method GetHeader(patience: nat) returns (ok: bool, track: bv8, sector: bv8)
      requires Valid()
      modifies this`pos
      ensures Valid() && old(pos) <= pos
      ensures ok ==> pos == old(pos) + 50 && HeaderAt(old(pos)) && track == InfoOf(HeaderBytes(old(pos)), 1)
                     && sector == InfoOf(HeaderBytes(old(pos)), 2)
      ensures steady && patience > 0 && old(pos) + 50 <= |fifo| ==> (ok <==> HeaderAt(old(pos)))
    {
      ok, track, sector := false, 0, 0;
      for k := 0 to patience
        invariant Valid() && pos == old(pos) && !ok
        invariant steady && old(pos) + 50 <= |fifo| ==> k == 0
      {
        var writing, words, more := Poll();
        if !writing {
          return;
        }
        if words > 24 {
          ok, track, sector := ReadHeader();
          return;
        } else if !more {
          return;
        }
      }
    }

    function HeaderBytes(p: nat): (s: Stream)
      requires p + 50 <= |fifo|
      reads this`fifo
      ensures |s| == 48
    {
      fifo[p + 2..p + 50]
    }

    /** The second synchronization word and an acceptable header. */
    predicate HeaderAt(p: nat)
      reads this`fifo
    {
      p + 50 <= |fifo| && SyncAt(fifo, p) && HeaderGood(HeaderBytes(p))
    }

    method ReadHeader() returns (ok: bool, track: bv8, sector: bv8)
      requires Valid() && pos + 50 <= |fifo|
      modifies this`pos
      ensures Valid() && old(pos) <= pos
      ensures ok ==>
                pos == old(pos) + 50 && track == InfoOf(HeaderBytes(old(pos)), 1)
                && sector == InfoOf(HeaderBytes(old(pos)), 2)
      ensures ok <==> HeaderAt(old(pos))
    {
      hide Xor(), Join(), High(), With(), Column(), Checked(), Even();
      ok, track, sector := false, 0, 0;
      ghost var s := HeaderBytes(pos);
      ghost var p := pos;
      var c1 := Receive();
      var c2 := Receive();
      if c1 != SYNC_HIGH || c2 != SYNC_LOW {
        return;
      }
      assert SyncAt(fifo, p);
      var checksum, info := new bv8[4](_ => 0), new bv8[4](_ => 0);
      ColumnStart(s[..40]);
      assert fifo[pos..pos + 40] == s[..40];
      ReadInfo(checksum, info, s[..40]);
      assert forall c :: 0 <= c < 4 ==> info[c] == InfoOf(s, c);
      assert HeaderBytes(p) == s;
      if info[0] != 0xFF || info[1] > 159 || info[2] > 10 || info[3] > 11 || info[3] == 0 {
        return;
      }
      track, sector := info[1], info[2];
      for i := 0 to 8
        invariant Valid() && pos == p + 10 + 4 * i
        invariant forall c :: 0 <= c < 4 ==> checksum[c] == Column(s[..40], c, 2 + i)
      {
        var q := SumGroup(checksum, s[..40], p + 2, 2 + i);
      }
      assert fifo[pos..pos + 8] == s[40..];
      ok := SameChecksum(checksum);
      assert fifo[p + 42..p + 50] == s[40..];
      assert forall c :: 0 <= c < 4 ==> checksum[c] == Column(s[..40], c, 10);
      assert HeaderBytes(p) == s;
    }

    /** Both halves of the information longword. */
    method ReadInfo(checksum: array<bv8>, info: array<bv8>, ghost s: Stream)
      requires Valid() && checksum.Length == info.Length == 4 && checksum != info && |s| == 40 && pos + 40 <= |fifo|
      requires s == fifo[pos..pos + 40] && forall c :: 0 <= c < 4 ==> checksum[c] == Column(s, c, 0)
      modifies this`pos, checksum, info
      ensures Valid() && pos == old(pos) + 8
      ensures forall c :: 0 <= c < 4 ==> checksum[c] == Column(s, c, 2)
      ensures forall c :: 0 <= c < 4 ==> info[c] == Join(s[c], s[4 + c])
    {
      hide Xor(), Join(), High(), With(), Column();
      ghost var base := pos;
      var q := SumGroup(checksum, s, base, 0);
      info[0], info[1], info[2], info[3] := High(q[0]), High(q[1]), High(q[2]), High(q[3]);
      var r := SumGroup(checksum, s, base, 1);
      JoinParts(q[0], r[0]);
      JoinParts(q[1], r[1]);
      JoinParts(q[2], r[2]);
      JoinParts(q[3], r[3]);
      info[0], info[1], info[2], info[3] := With(info[0], r[0]), With(info[1], r[1]), With(info[2], r[2]),
        With(info[3], r[3]);
    }

    /** GetData: the data of a sector, once it all waits. */
    method GetData(buffer: array<bv8>, patience: nat) returns (ok: bool)
      requires Valid() && buffer.Length == SECTOR
      modifies this`pos, buffer
      ensures Valid() && old(pos) <= pos
      ensures ok ==> pos == old(pos) + 1032 && DataAt(old(pos)) && buffer[..] == DataOf(DataBytes(old(pos)))
      ensures steady && patience > 0 && old(pos) + 1032 <= |fifo| ==> (ok <==> DataAt(old(pos)))
    {
      ok := false;
      for k := 0 to patience
        invariant Valid() && pos == old(pos) && !ok
        invariant steady && old(pos) + 1032 <= |fifo| ==> k == 0
      {
        var writing, words, more := Poll();
        if !writing {
          return;
        }
        if words >= 0x204 {
          ok := ReadData(buffer);
          return;
        } else if !more {
          return;
        }
      }
    }

    function DataBytes(p: nat): (s: Stream)
      requires p + 1032 <= |fifo|
      reads this`fifo
      ensures |s| == 1032
    {
      fifo[p..p + 1032]
    }

    predicate DataAt(p: nat)
      reads this`fifo
    {
      p + 1032 <= |fifo| && DataGood(DataBytes(p))
    }

    method ReadData(buffer: array<bv8>) returns (ok: bool)
      requires Valid() && pos + 1032 <= |fifo| && buffer.Length == SECTOR
      modifies this`pos, buffer
      ensures Valid() && pos == old(pos) + 1032
      ensures ok <==> DataAt(old(pos))
      ensures buffer[..] == DataOf(DataBytes(old(pos)))
    {
      hide Xor(), Join(), High(), With(), Column(), Checked(), Even();
      ghost var s := DataBytes(pos);
      ghost var p := pos;
      var c := new bv8[4](_ => 0);
      assert fifo[pos..pos + 8] == s[..8];
      ReadChecksum(c);
      var checksum := new bv8[4](_ => 0);
      ColumnStart(s[8..]);
      assert fifo[pos..pos + 1024] == s[8..];
      ReadOdds(checksum, buffer, s[8..]);
      ReadEvens(checksum, buffer, s[8..], p + 8);
      DataVerdict(s);
      ok := c[0] == Even(checksum[0]) && c[1] == Even(checksum[1]) && c[2] == Even(checksum[2])
        && c[3] == Even(checksum[3]);
      assert forall k :: 0 <= k < 4 ==> c[k] == Checked(s[..8], k) && checksum[k] == Column(s[8..], k, 256);
      assert buffer[..] == DataOf(s);
    }

    /** The odd halves of the data, each byte's half into the buffer. */
    method ReadOdds(checksum: array<bv8>, buffer: array<bv8>, ghost s: Stream)
      requires Valid() && pos + 1024 <= |fifo| && checksum.Length == 4 && buffer.Length == SECTOR && checksum != buffer
      requires s == fifo[pos..pos + 1024] && forall c :: 0 <= c < 4 ==> checksum[c] == Column(s, c, 0)
      modifies this`pos, checksum, buffer
      ensures Valid() && pos == old(pos) + 512
      ensures forall c :: 0 <= c < 4 ==> checksum[c] == Column(s, c, 128)
      ensures forall j :: 0 <= j < 512 ==> buffer[j] == High(s[j])
    {
      hide Xor(), High(), Column();
      ghost var base := pos;
      for n := 0 to 128
        invariant Valid() && pos == base + 4 * n
        invariant forall c :: 0 <= c < 4 ==> checksum[c] == Column(s, c, n)
        invariant forall j :: 0 <= j < 4 * n ==> buffer[j] == High(s[j])
      {
        var q := SumGroup(checksum, s, base, n);
        buffer[4 * n], buffer[4 * n + 1], buffer[4 * n + 2], buffer[4 * n + 3] := High(q[0]), High(q[1]), High(q[2]),
          High(q[3]);
      }
    }

    /** The even halves, put to the odd ones. */
    method ReadEvens(checksum: array<bv8>, buffer: array<bv8>, ghost s: Stream, ghost base: nat)
      requires Valid() && pos == base + 512 && base + 1024 <= |fifo| && checksum.Length == 4
      requires buffer.Length == SECTOR && checksum != buffer
      requires s == fifo[base..base + 1024] && forall c :: 0 <= c < 4 ==> checksum[c] == Column(s, c, 128)
      requires forall j :: 0 <= j < 512 ==> buffer[j] == High(s[j])
      modifies this`pos, checksum, buffer
      ensures Valid() && pos == base + 1024
      ensures forall c :: 0 <= c < 4 ==> checksum[c] == Column(s, c, 256)
      ensures forall j :: 0 <= j < 512 ==> buffer[j] == Join(s[j], s[512 + j])
    {
      hide Xor(), High(), With(), Join(), Column();
      for n := 0 to 128
        invariant Valid() && pos == base + 512 + 4 * n
        invariant forall c :: 0 <= c < 4 ==> checksum[c] == Column(s, c, 128 + n)
        invariant forall j :: 0 <= j < 4 * n ==> buffer[j] == Join(s[j], s[512 + j])
        invariant forall j :: 4 * n <= j < 512 ==> buffer[j] == High(s[j])
      {
        var q := SumGroup(checksum, s, base, 128 + n);
        for k := 0 to 4
          invariant forall j :: 0 <= j < 4 * n + k ==> buffer[j] == Join(s[j], s[512 + j])
          invariant forall j :: 4 * n + k <= j < 512 ==> buffer[j] == High(s[j])
          modifies buffer
        {
          assert q[k] == s[512 + 4 * n + k];
          JoinParts(s[4 * n + k], q[k]);
          buffer[4 * n + k] := With(buffer[4 * n + k], q[k]);
        }
      }
    }

    /** A sector the encoder made, with the usual synchronization word, comes back as it was: track, sector and data. */
    method Decode(ghost data: Stream, ghost t: bv8, ghost n: bv8, buffer: array<bv8>)
        returns (ok: bool, track: bv8, sector: bv8)
      requires Valid() && steady && buffer.Length == SECTOR && |data| == SECTOR && t <= 159 && n <= 10
      requires pos + SECTOR_SIZE <= |fifo|
      requires fifo[pos..pos + SECTOR_SIZE] == SectorBytes(data, n, t, SYNC_HIGH, SYNC_LOW)
      modifies this`pos, buffer
      ensures ok && track == t && sector == n && buffer[..] == data
      ensures Valid() && pos == old(pos) + SECTOR_SIZE
    {
      hide HeaderField(), DataField(), HeaderGood(), InfoOf(), DataGood(), DataOf(), Clocks();
      HeaderRoundTrip(t, n);
      DataRoundTrip(data);
      Anatomy(fifo, pos, data, n, t);
      assert FirstSync(pos, 2);
      ghost var p := pos;
      ok := FindSync(1);
      assert FirstSync(p, 2);
      assert ok;
      ghost var w: nat :| pos == p + 2 * w + 2 && FirstSync(p, w);
      assert w == 2;
      assert HeaderBytes(pos) == HeaderField(t, n);
      ok, track, sector := GetHeader(1);
      assert DataBytes(pos) == DataField(data);
      ok := GetData(buffer, 1);
    }
  }

  /** Where the parts of an encoded sector lie. */
  lemma Anatomy(f: Stream, p: nat, data: Stream, n: bv8, t: bv8)
    requires |data| == SECTOR && p + SECTOR_SIZE <= |f|
    requires f[p..p + SECTOR_SIZE] == SectorBytes(data, n, t, SYNC_HIGH, SYNC_LOW)
    ensures SyncAt(f, p + 4) && SyncAt(f, p + 6) && !SyncAt(f, p) && !SyncAt(f, p + 2)
    ensures f[p + 8..p + 56] == HeaderField(t, n) && f[p + 56..p + 1088] == DataField(data)
  {
    hide HeaderField(), DataField(), Clocks();
    var s := SectorBytes(data, n, t, SYNC_HIGH, SYNC_LOW);
    assert s[0] == CLOCK && s[2] == CLOCK;
    assert s[4] == SYNC_HIGH && s[5] == SYNC_LOW && s[6] == SYNC_HIGH && s[7] == SYNC_LOW;
    assert f[p] == s[0] && f[p + 2] == s[2] && f[p + 4] == s[4] && f[p + 5] == s[5] && f[p + 6] == s[6];
    assert f[p + 7] == s[7];
    assert f[p + 8..p + 56] == s[8..56] && f[p + 56..p + 1088] == s[56..];
    assert s[8..56] == HeaderField(t, n) && s[56..] == DataField(data);
  }

  lemma DataVerdict(s: Stream)
    requires |s| == 8 + 2 * SECTOR
    ensures DataGood(s) <==> forall c :: 0 <= c < 4 ==> Checked(s[..8], c) == Even(Column(s[8..], c, 256))
  {
    hide Column(), Checked(), Even(), Xor();
    assert s[8..] == s[8..520] + s[520..];
    forall c | 0 <= c < 4 ensures Column(s[8..], c, 256) == Xor(Column(s[8..520], c, 128), Column(s[520..], c, 128)) {
      ColumnJoin(s[8..520], s[520..], c, 128, 128);
    }
  }

  lemma ColumnStart(s: Stream)
    ensures forall c :: 0 <= c < 4 ==> Column(s, c, 0) == 0
  {
  }

  method DataChecksum(data: Stream) returns (checksum: array<bv8>)
    requires |data| == SECTOR
    ensures fresh(checksum) && checksum.Length == 4
    ensures forall c :: 0 <= c < 4 ==> checksum[c] == Folded(data, c, 128)
  {
    hide Half(), Xor();
    checksum := new bv8[4](_ => 0);
    for n := 0 to 128
      invariant forall c :: 0 <= c < 4 ==> checksum[c] == Folded(data, c, n)
    {
      for k := 0 to 4
        invariant forall c :: 0 <= c < 4 ==> checksum[c] == Folded(data, c, if c < k then n + 1 else n)
      {
        var x := data[4 * n + k];
        checksum[k] := Xor(checksum[k], Xor(x, Half(x)));
      }
    }
  }
}
