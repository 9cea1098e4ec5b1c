/** Byte-granular files: a sector reader with one buffered sector behaves as a byte array with a
    cursor. */
module RandomAccess {
  import opened Storage
  import opened FatChain
  import opened FatFile

  /** Sectors touched by the first `p` bytes. */
  function WholeSectors(p: nat): nat {
    (p + 511) / 512
  }

  lemma WholeAfter(k: nat, r: nat)
    requires r <= 512
    ensures WholeSectors(512 * k + r) == if r == 0 then k else k + 1
    ensures r < 512 ==> (512 * k + r) / 512 == k && (512 * k + r) % 512 == r
  {
  }

  class RAFile {
    const volume: Volume
    const file: FileHandle
    var ptr: nat
    var buffer: Sector
    /** Links FileNextSector failed to read; its result is ignored, so nothing records them. */
    ghost var lag: nat
    /** How many of them were missed when the sector in the buffer was read. */
    ghost var held: nat

    constructor (volume: Volume, file: FileHandle)
      requires volume.Ready(file) && file.sector == 0
      ensures this.volume == volume && this.file == file && ptr == 0
      ensures Valid()
    {
      this.volume, this.file := volume, file;
      ptr, buffer, lag, held := 0, Blank(), 0, 0;
    }

    /** The next sector the file will deliver. */
    ghost function NextWhole(): nat
      reads this`ptr
    {
      WholeSectors(ptr)
    }

    /** Holds even after lost links: the handle is `lag` links behind, and its sector counter follows the cursor. */
    ghost predicate Tracking()
      reads this`ptr, this`lag, volume, volume.card, file
    {
      && volume.Valid()
      && file.On(volume.g, volume.card.sectors)
      && file.Behind(volume.g, volume.card.sectors, lag)
      && file.sector <= Sectors(file.size)
      && (512 * NextWhole() < file.size ==> file.sector == NextWhole())
    }

    /** Sector `k` of the file as a handle reads it that is `b` links behind. */
    ghost function LagSector(k: nat, b: nat): Sector
      requires volume.g.clusterSize > 0 && b <= ClusterOf(volume.g, k)
      reads volume.card, file`startCluster
    {
      var g, disk := volume.g, volume.card.sectors;
      SectorAt(disk, Address(g, Chain(g, disk, file.startCluster, ClusterOf(g, k) - b), k))
    }

    /** The rest of a sector begun is in the buffer. */
    ghost predicate Holding()
      requires volume.g.clusterSize > 0
      reads this`ptr, this`lag, this`held, this`buffer, volume.card, file`startCluster
    {
      ptr % 512 != 0 ==>
        held <= lag && held <= ClusterOf(volume.g, ptr / 512) && buffer == LagSector(ptr / 512, held)
    }

    /** The cursor is in the file, and handle and buffer follow it, behind or not. */
    ghost predicate Usable()
      reads this, volume, volume.card, file
    {
      Tracking() && ptr <= file.size && Holding()
    }

    /** No link was missed. */
    ghost predicate Valid()
      reads this, volume, volume.card, file
    {
      Usable() && lag == 0
    }

    /** The end of the last sector of the file; reads are only refused beyond it. */
    ghost function End(): nat
      reads file`size
    {
      512 * Sectors(file.size)
    }

    /** The end of the file's last sector. */
    lemma EndTells()
      ensures End() % 512 == 0 && file.size <= End() < file.size + 512
    {
    }

    /** While the handle stands in the file, it missed no link if and only if its cluster is the right one, that is, if
        and only if the next sector is read from the right place. */
    lemma LagTells()
      requires Tracking() && file.sector < Sectors(file.size)
      ensures var g, disk, k := volume.g, volume.card.sectors, file.sector;
        && (lag == 0 <==> file.cluster == Chain(g, disk, file.startCluster, ClusterOf(g, k)))
        && (lag == 0 <==> Address(g, file.cluster, k) == FileAddress(g, disk, file.startCluster, k))
    {
      hide Address, FileAddress, Link, DataCluster, ClusterOf, Clusters, Chain;
      var g, disk, k := volume.g, volume.card.sectors, file.sector;
      LagMisreads(g, disk, file, lag);
      SectorInClusters(g, file.size, k);
      if lag > 0 {
        ChainInjective(g, disk, file.startCluster, file.size, ClusterOf(g, k) - lag, ClusterOf(g, k));
      }
    }

    // ---------------------------------------------------------------- bytes read behind

    /** `x` is the byte at `p` as a handle reads it that is `b` links behind. */
    ghost predicate Slip(p: nat, b: nat, x: byte)
      requires volume.g.clusterSize > 0
      reads volume.card, file`startCluster
    {
      b <= ClusterOf(volume.g, p / 512) && LagSector(p / 512, b)[p % 512] == x
    }

    /** How far behind byte `p` may have been read, by a read from `base` on that began `was` links behind: at most one
        link more for each cluster entered since. */
    ghost function Most(was: nat, base: nat, p: nat): int
      requires volume.g.clusterSize > 0
    {
      was + ClusterOf(volume.g, p / 512) - ClusterOf(volume.g, base / 512)
    }

    /** `x` is the file's byte at `p`, read at most `now` links behind. */
    ghost predicate SlippedAt(p: nat, x: byte, was: nat, now: nat, base: nat)
      requires volume.g.clusterSize > 0
      reads volume.card, file`startCluster
    {
      exists b: nat :: b <= now && b <= Most(was, base, p) && Slip(p, b, x)
    }

    ghost predicate Slipped(from: nat, data: seq<byte>, was: nat, now: nat, base: nat)
      requires volume.g.clusterSize > 0
      reads volume.card, file`startCluster
    {
      forall i :: 0 <= i < |data| ==> SlippedAt(from + i, data[i], was, now, base)
    }

    lemma SlippedNone(from: nat, was: nat, now: nat, base: nat)
      requires volume.g.clusterSize > 0
      ensures Slipped(from, [], was, now, base)
    {
    }

    /** More bytes, out of one sector. */
    lemma SlippedMore(from: nat, data: seq<byte>, was: nat, now: nat, base: nat, k: nat, b: nat, o: nat, e: nat,
        later: nat)
      requires volume.g.clusterSize > 0 && Slipped(from, data, was, now, base) && now <= later
      requires o <= e <= 512 && from + |data| == 512 * k + o && b <= later
      requires b <= ClusterOf(volume.g, k) && b <= was + ClusterOf(volume.g, k) - ClusterOf(volume.g, base / 512)
      ensures Slipped(from, data + LagSector(k, b)[o..e], was, later, base)
    {
      hide ClusterOf, LagSector;
      var s := LagSector(k, b);
      var all := data + s[o..e];
      forall i | 0 <= i < |all| ensures SlippedAt(from + i, all[i], was, later, base) {
        if i < |data| {
          assert SlippedAt(from + i, data[i], was, now, base);
        } else {
          WholeAfter(k, from + i - 512 * k);
          assert Slip(from + i, b, all[i]);
        }
      }
    }

    /** Nothing missed: exactly the bytes of the file. */
    lemma SlippedExact(from: nat, data: seq<byte>, was: nat, base: nat)
      requires volume.g.clusterSize > 0 && Slipped(from, data, was, 0, base)
      ensures data == FileBytes(volume.g, volume.card.sectors, file.startCluster, from, |data|)
    {
      var disk := volume.card.sectors;
      forall i | 0 <= i < |data| ensures data[i] == FileByte(volume.g, disk, file.startCluster, from + i) {
        assert SlippedAt(from + i, data[i], was, 0, base);
      }
    }

    lemma WholeAfterFetch(k: nat, take: nat)
      requires 0 < take <= 512 && 512 * k < file.size
      ensures WholeSectors(512 * k + take) == k + 1 && k < Sectors(file.size)
      ensures 512 * k + take < file.size && (512 * k + take) % 512 == 0 ==> 512 * (k + 1) < file.size
    {
    }

    // ---------------------------------------------------------------- reading

    /** One whole sector from the position, advancing the cursor by `take` bytes and fetching on only
        while the file lasts. */
    method Fetch(take: nat) returns (ok: bool, data: Sector)
      requires Tracking() && ptr % 512 == 0 && ptr < file.size && 0 < take <= 512
      modifies this`ptr, this`lag, volume`fatBuffer, volume`fatIndex, file`sector, file`cluster
      ensures Tracking() && ptr == old(ptr) + take && lag >= old(lag)
      ensures old(lag) <= ClusterOf(volume.g, old(ptr) / 512)
      ensures ok ==> data == LagSector(old(ptr) / 512, old(lag))
      ensures ptr < file.size && ptr % 512 == 0 ==>
                lag <= old(lag) + (ClusterOf(volume.g, ptr / 512) - ClusterOf(volume.g, old(ptr) / 512))
      ensures ptr >= file.size ==>
                file.sector == old(file.sector) && file.cluster == old(file.cluster) && lag == old(lag)
      ensures volume.card.healthy ==> lag == old(lag) && ok
    {
      hide ClusterOf, Clusters, Address, FileSector, Chain, WellFormed, Link, LagSector;
      ghost var k := ptr / 512;
      WholeAfterFetch(k, take);
      Here(k);
      OnCard();
      ok, data := volume.FileRead(file);
      ptr := ptr + take;
      if ptr < file.size {
        ghost var stepped;
        stepped, lag := volume.NextSector(file, lag);
      }
    }

    /** The handle stands on sector `k` of the file, `lag` links behind. */
    lemma Here(k: nat)
      requires Tracking() && ptr == 512 * k < file.size
      ensures volume.g.clusterSize > 0 && file.sector == k < Sectors(file.size)
      ensures ClusterOf(volume.g, k) < Clusters(volume.g, file.size) && lag <= ClusterOf(volume.g, k)
      ensures LagSector(k, lag) == SectorAt(volume.card.sectors, Address(volume.g, file.cluster, k))
    {
      hide ClusterOf, Clusters, Address, Chain, WellFormed, Link;
      WholeAfter(k, 0);
      SectorInClusters(volume.g, file.size, k);
    }

    /** The place a handle in the file reads from is on the card, behind or not. */
    lemma OnCard()
      requires Tracking() && ClusterOf(volume.g, file.sector) < Clusters(volume.g, file.size)
      ensures Address(volume.g, file.cluster, file.sector) < |volume.card.sectors|
    {
      hide Chain, DataCluster, ClusterOf, Clusters, Address;
      var g, disk := volume.g, volume.card.sectors;
      assert DataCluster(g, disk, Chain(g, disk, file.startCluster, ClusterOf(g, file.sector) - lag));
      AddressExact(g, disk, file.cluster, file.sector);
    }

    lemma WholeInFile(left: nat)
      requires left > 511 && ptr % 512 == 0
      ensures ptr >= file.size ==> ptr + left > End()
      ensures ptr < file.size ==> ptr + 512 <= End()
    {
    }

    /** The handle is no further behind than the clusters entered since `base` allow. */
    ghost predicate Slipping(was: nat, base: nat)
      requires volume.g.clusterSize > 0
      reads this`ptr, this`lag, file`size
    {
      base <= ptr && (ptr % 512 == 0 && ptr < file.size ==> lag <= Most(was, base, ptr))
    }

    lemma TrackingFacts()
      requires Tracking()
      ensures volume.g.clusterSize > 0 && (lag == 0 && file.sector <= Sectors(file.size) ==> volume.Ready(file))
    {
    }

    /** One whole sector for the guest's buffer. */
    method FetchWhole(ghost start: nat, ghost before: seq<byte>, ghost was: nat, ghost base: nat)
        returns (ok: bool, data: Sector)
      requires Tracking() && Slipping(was, base) && ptr % 512 == 0 && ptr < file.size && start + |before| == ptr
      modifies this`ptr, this`lag, volume`fatBuffer, volume`fatIndex, file`sector, file`cluster
      ensures Tracking() && Slipping(was, base) && ptr == old(ptr) + 512 && lag >= old(lag)
      ensures ok && Slipped(start, before, was, old(lag), base) ==> Slipped(start, before + data, was, lag, base)
      ensures volume.card.healthy ==> lag == old(lag) && ok
    {
      hide Tracking, LagSector, ClusterOf, Slipped;
      TrackingFacts();
      ghost var k, b := ptr / 512, lag;
      ok, data := Fetch(512);
      if ok && Slipped(start, before, was, b, base) {
        SlippedMore(start, before, was, b, base, k, b, 0, 512, lag);
        assert data[0..512] == data;
      }
    }

    /** The whole-sector loop of RARead; `left` bytes stay to be read. */
    method ReadWhole(count: nat, ghost was: nat, ghost base: nat) returns (ok: bool, data: seq<byte>, left: nat)
      requires Tracking() && (count > 0 ==> ptr % 512 == 0) && Slipping(was, base)
      modifies this`ptr, this`lag, volume`fatBuffer, volume`fatIndex, file`sector, file`cluster
      ensures Tracking() && old(lag) <= lag && Slipping(was, base)
      ensures left <= count && ptr == old(ptr) + (count - left) && |data| == count - left
      ensures count <= 511 ==> ptr == old(ptr) && ok && lag == old(lag)
      ensures ptr <= old(ptr) || ptr <= End()
      ensures left > 511 ==> !ok && old(ptr) + count > End()
      ensures count == 0 || ptr % 512 == 0
      ensures ok ==> Slipped(old(ptr), data, was, lag, base)
      ensures volume.card.healthy ==> lag == old(lag) && (left <= 511 ==> ok)
    {
      hide Tracking, NextWhole, End, Slipping, Slipped;
      TrackingFacts();
      ok, data, left := true, [], count;
      ghost var start := ptr;
      SlippedNone(start, was, lag, base);
      while left > 511
        invariant Tracking() && old(lag) <= lag && Slipping(was, base)
        invariant left <= count && ptr == start + (count - left) && |data| == count - left
        invariant (count - left) % 512 == 0
        invariant count <= 511 ==> left == count && ok && lag == old(lag)
        invariant ptr <= old(ptr) || ptr <= End()
        invariant ok ==> Slipped(start, data, was, lag, base)
        invariant volume.card.healthy ==> lag == old(lag) && ok
      {
        WholeInFile(left);
        if ptr >= file.size {
          ok := false;
          return;
        }
        var fetched, s;
        fetched, s := FetchWhole(start, data, was, base);
        data := data + s;
        left := left - 512;
        ok := ok && fetched;
      }
    }

    /** A sector begun inside the file ends at or before its last sector's end. */
    lemma BegunSector(k: nat, offset: nat)
      requires 0 < offset < 512 && 512 * k + offset <= file.size
      ensures 512 * k + 512 <= End()
    {
    }

    /** The part of RARead that empties the buffer. */
    method Drain(count: nat) returns (data: seq<byte>, left: nat)
      requires Usable()
      modifies this`ptr
      ensures left <= count && |data| == count - left && ptr == old(ptr) + (count - left)
      ensures left > 0 ==> ptr % 512 == 0
      ensures Slipped(old(ptr), data, lag, lag, old(ptr)) && Slipping(lag, old(ptr))
      ensures Tracking() && Holding() && ptr <= End()
    {
      hide FileSector, WellFormed, Clusters, Link, Chain, WholeSectors, End, Sectors, Slipped, LagSector;
      UsableFacts();
      data, left := [], count;
      SlippedNone(ptr, lag, lag, ptr);
      WholeAfter(ptr / 512, ptr % 512);
      var offset := ptr % 512;
      if offset != 0 {
        var end := offset + left;
        if end > 512 {
          end := 512;
        }
        ghost var k, start := ptr / 512, ptr;
        SlippedMore(start, [], lag, lag, start, k, held, offset, end, lag);
        data := buffer[offset..end];
        assert [] + data == data;
        BegunSector(k, offset);
        ptr := ptr + (end - offset);
        left := left - (end - offset);
        WholeAfter(k, end);
        if end == 512 {
          WholeAfter(k + 1, 0);
          ClusterMonotone(volume.g, k, k + 1);
        }
      }
    }

    /** The last, partial sector of RARead; its remainder stays buffered. */
    method ReadTail(left: nat, ghost from: nat, ghost before: seq<byte>, ghost was: nat, ghost base: nat)
        returns (ok: bool, data: seq<byte>)
      requires Tracking() && (left == 0 ==> Holding()) && left <= 511 && (left > 0 ==> ptr % 512 == 0)
      requires Slipping(was, base) && from + |before| == ptr
      modifies this`ptr, this`buffer, this`lag, this`held, volume`fatBuffer, volume`fatIndex, file`sector, file`cluster
      ensures Tracking() && old(lag) <= lag
      ensures left > 0 && old(ptr) >= file.size ==> !ok && lag == old(lag)
      ensures left == 0 || old(ptr) < file.size ==> ptr == old(ptr) + left && |data| == left
      ensures ok && Slipped(from, before, was, old(lag), base) ==> Slipped(from, before + data, was, lag, base)
      ensures ok ==> Holding()
      ensures volume.card.healthy ==> lag == old(lag) && (left == 0 || old(ptr) < file.size ==> ok)
    {
      hide FileSector, WellFormed, Clusters, Link, Chain, WholeSectors, Slipped, ClusterOf, Address;
      ok, data := true, [];
      assert before + [] == before;
      if left > 0 {
        if ptr >= file.size {
          ok := false;
          return;
        }
        ghost var k, b := ptr / 512, lag;
        var s;
        ok, s := Fetch(left);
        if ok {
          buffer, held := s, b;
          if Slipped(from, before, was, b, base) {
            SlippedMore(from, before, was, b, base, k, b, 0, left, lag);
          }
        }
        data := buffer[..left];
        assert buffer[0..left] == data;
        WholeAfter(k, left);
      }
    }

    /** RARead: drain the buffered sector, then whole sectors, then part of one, buffering the rest.
        Inside the file it returns exactly the bytes at the cursor and leaves the reader valid, unless
        the card failed. A failure while stepping to the next sector goes unreported: `lag` counts those, and the
        bytes are then read from as many links behind. */
    method Read(count: nat) returns (ok: bool, data: seq<byte>)
      requires Usable() && count < 0x8000_0000 - 512
      modifies this`ptr, this`buffer, this`lag, this`held, volume`fatBuffer, volume`fatIndex, file`sector, file`cluster
      ensures Tracking() && old(lag) <= lag
      ensures ok ==> old(ptr) + count <= End()
      ensures ok ==> ptr == old(ptr) + count && |data| == count
      ensures ok ==> Slipped(old(ptr), data, old(lag), lag, old(ptr))
      ensures ok && lag == 0 ==>
                data == FileBytes(volume.g, volume.card.sectors, file.startCluster, old(ptr), count)
      ensures ok && old(ptr) + count <= file.size ==> Usable()
      ensures ok && lag == 0 && old(ptr) + count <= file.size ==> Valid()
      ensures volume.card.healthy ==> lag == old(lag) && (ok <==> old(ptr) + count <= End())
    {
      hide Tracking, Holding, Slipped, Slipping, FileBytes, NextWhole, End;
      ghost var start, was := ptr, lag;
      UsableFacts();
      var drained, left := Drain(count);
      ghost var rest := left;
      var whole, more;
      ok, whole, left := ReadWhole(left, was, start);
      data := drained + whole;
      if ok {
        SlippedJoin(start, drained, whole, was, was, lag, start);
      }
      if left > 511 {
        return;
      }
      TailInFile(left);
      StillHolding(rest, left);
      var last;
      last, more := ReadTail(left, start, data, was, start);
      data := data + more;
      ok := ok && last;
      if ok && lag == 0 {
        SlippedExact(start, data, was, start);
      }
    }

    lemma StillHolding(rest: nat, left: nat)
      requires Tracking() && rest >= left && (rest == 0 ==> Holding()) && (rest == 0 || ptr % 512 == 0)
      ensures left == 0 ==> Holding()
    {
    }

    lemma SlippedJoin(from: nat, a: seq<byte>, b: seq<byte>, was: nat, now: nat, later: nat, base: nat)
      requires volume.g.clusterSize > 0 && now <= later
      requires Slipped(from, a, was, now, base) && Slipped(from + |a|, b, was, later, base)
      ensures Slipped(from, a + b, was, later, base)
    {
      hide Slip, Most;
      forall i | 0 <= i < |a + b| ensures SlippedAt(from + i, (a + b)[i], was, later, base) {
        if i < |a| {
          assert SlippedAt(from + i, a[i], was, now, base);
        } else {
          assert SlippedAt(from + |a| + (i - |a|), b[i - |a|], was, later, base);
        }
      }
    }

    lemma TailInFile(left: nat)
      requires left <= 511 && (left > 0 ==> ptr % 512 == 0)
      ensures left > 0 ==> (ptr < file.size <==> ptr + left <= End())
    {
    }

    lemma UsableFacts()
      requires Usable()
      ensures volume.g.clusterSize > 0 && ptr <= file.size <= End() && Tracking() && Holding()
    {
    }

    /** RASeek: seek the sector and, in the middle of one, buffer it. `origin` SEEK_CUR only adds the
        cursor to `offset` first. A seek that fails moves the cursor all the same. */
    method Seek(offset: u32) returns (ok: bool)
      requires Valid()
      modifies this`ptr, this`buffer, this`lag, this`held, volume`fatBuffer, volume`fatIndex, file`sector, file`cluster
      ensures ptr == offset
      ensures offset < file.size ==>
                volume.Valid() && file.On(volume.g, volume.card.sectors)
                && file.Behind(volume.g, volume.card.sectors, lag)
      ensures offset <= file.size && ok ==> Usable() && lag <= 1
      ensures offset <= file.size && ok && lag == 0 ==> Valid()
      ensures ok && lag > 0 ==> ptr % 512 != 0 && held == 0
      ensures ok ==> lag <= ClusterOf(volume.g, offset / 512 + 1) - ClusterOf(volume.g, offset / 512)
      ensures offset < file.size && volume.card.healthy ==> ok && lag == 0
    {
      hide FileSector, WellFormed, ClusterOf, Clusters, Link, Chain, Address, LagSector;
      SeekFacts(offset);
      LagNone(offset / 512);
      ghost var links;
      ok, links := volume.Seek(file, offset / 512);
      if ok && offset % 512 != 0 {
        ok := Buffer(offset / 512);
      }
      ptr := offset;
    }

    /** The sector a seek goes into the middle of. */
    method Buffer(ghost k: nat) returns (ok: bool)
      requires volume.Valid() && file.On(volume.g, volume.card.sectors) && file.OnChain(volume.g, volume.card.sectors)
      requires file.sector == k && lag == 0 && k < TWO32 - 1
      modifies this`buffer, this`lag, this`held, volume`fatBuffer, volume`fatIndex, file`sector, file`cluster
      ensures volume.Valid() && file.Behind(volume.g, volume.card.sectors, lag) && file.sector == k + 1 && lag <= 1
      ensures k < Sectors(file.size) && ok ==>
                held == 0 && buffer == FileSector(volume.g, volume.card.sectors, file.startCluster, k)
      ensures k < Sectors(file.size) && volume.card.healthy ==> ok && lag == 0
      ensures ok ==> held == 0
      ensures lag <= ClusterOf(volume.g, k + 1) - ClusterOf(volume.g, k)
    {
      hide FileSector, WellFormed, ClusterOf, Clusters, Link, Chain, Address;
      var s;
      ok, s := volume.FileRead(file);
      if ok {
        buffer, held := s, 0;
      }
      ghost var stepped;
      stepped, lag := volume.NextSector(file, lag);
    }

    lemma LagNone(k: nat)
      requires volume.g.clusterSize > 0
      ensures LagSector(k, 0) == FileSector(volume.g, volume.card.sectors, file.startCluster, k)
    {
    }

    lemma SeekFacts(offset: nat)
      requires Valid()
      ensures volume.Ready(file) && volume.g.clusterSize > 0
      ensures ClusterOf(volume.g, offset / 512) <= ClusterOf(volume.g, offset / 512 + 1)
      ensures offset < file.size ==> ClusterOf(volume.g, offset / 512) < Clusters(volume.g, file.size)
      ensures offset <= file.size ==> WholeSectors(offset) <= Sectors(file.size)
      ensures offset < file.size && offset % 512 != 0 ==> offset / 512 < Sectors(file.size)
    {
      SectorInClusters(volume.g, file.size, offset / 512);
      ClusterMonotone(volume.g, offset / 512, offset / 512 + 1);
    }
  }

  datatype Op = Take(count: nat) | Jump(offset: nat)

  /** What a byte array with a cursor answers. */
  function Answers(bytes: seq<byte>, ptr: nat, ops: seq<Op>): (r: seq<seq<byte>>)
    requires InRange(|bytes|, ptr, ops)
    decreases |ops|
  {
    if ops == [] then []
    else match ops[0]
      case Take(n) => [bytes[ptr..ptr + n]] + Answers(bytes, ptr + n, ops[1..])
      case Jump(o) => Answers(bytes, o, ops[1..])
  }

  /** Every read stays inside the file and every seek goes below its end. */
  predicate InRange(size: nat, ptr: nat, ops: seq<Op>)
    decreases |ops|
  {
    ptr <= size &&
    (ops == [] ||
     match ops[0]
     case Take(n) => n < 0x8000_0000 - 512 && ptr + n <= size && InRange(size, ptr + n, ops[1..])
     case Jump(o) => o < size && InRange(size, o, ops[1..]))
  }

  /** Any interleaving of in-range reads and seeks on a working card answers like the byte array. */
  method Run(f: RAFile, ops: seq<Op>) returns (answers: seq<seq<byte>>)
    requires f.Valid() && f.volume.card.healthy
    requires InRange(f.file.size, f.ptr, ops)
    modifies f`ptr, f`buffer, f`lag, f`held, f.volume`fatBuffer, f.volume`fatIndex, f.file`sector, f.file`cluster
    ensures f.Valid()
    ensures answers ==
              Answers(old(FileBytes(f.volume.g, f.volume.card.sectors, f.file.startCluster, 0, f.file.size)),
                old(f.ptr), ops)
    decreases |ops|
  {
    hide FileBytes, FileSector, WellFormed, ClusterOf, Clusters, Link, Chain, Address;
    answers := [];
    if ops != [] {
      match ops[0]
      case Take(n) =>
        ghost var all := FileBytes(f.volume.g, f.volume.card.sectors, f.file.startCluster, 0, f.file.size);
        ghost var p := f.ptr;
        var ok, data := f.Read(n);
        assert data == all[p..p + n];
        var rest := Run(f, ops[1..]);
        answers := [data] + rest;
      case Jump(o) =>
        var ok := f.Seek(o);
        answers := Run(f, ops[1..]);
    }
  }
}
