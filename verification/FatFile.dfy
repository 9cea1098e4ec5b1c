/** The file layer of the FAT driver: a one-sector FAT cache, and file handles whose position is a
    sector number together with the cluster that holds it. */
module FatFile {
  import opened Storage
  import opened FatChain

  /** An open file: `cluster` is meant to be the cluster of `sector`. */
  class FileHandle {
    var sector: u32
    var size: u32
    var cluster: nat
    var startCluster: nat
    var readOnly: bool

    constructor (startCluster: nat, size: u32, readOnly: bool)
      ensures this.startCluster == startCluster && this.size == size && this.readOnly == readOnly
      ensures sector == 0 && cluster == startCluster
    {
      this.startCluster, this.size, this.readOnly := startCluster, size, readOnly;
      sector, cluster := 0, startCluster;
    }

    /** The file's chain on this card is well formed. */
    ghost predicate On(g: Geometry, disk: seq<Sector>)
      requires g.Valid()
      reads this
    {
      WellFormed(g, disk, startCluster, size)
    }

    /** The position is inside the file or at its end, and the cluster is the one a walk from the
        start reaches. Past the last cluster no cluster is named: reading up to the end of the file
        deliberately does not follow the end-of-chain link. */
    ghost predicate Positioned(g: Geometry, disk: seq<Sector>)
      requires g.Valid()
      reads this
    {
      sector <= Sectors(size) && OnChain(g, disk)
    }

    ghost predicate OnChain(g: Geometry, disk: seq<Sector>)
      requires g.Valid()
      reads this
    {
      Behind(g, disk, 0)
    }

    /** The cluster lies `lag` links before the one the position calls for. */
    ghost predicate Behind(g: Geometry, disk: seq<Sector>, lag: nat)
      requires g.Valid()
      reads this
    {
      ClusterOf(g, sector) < Clusters(g, size) ==>
        lag <= ClusterOf(g, sector) && cluster == Chain(g, disk, startCluster, ClusterOf(g, sector) - lag)
    }
  }

  /** Links a seek from `from` to `to` follows: a forward seek walks from where it is, a backward one
      that leaves the cluster starts over. */
  function LinksFollowed(g: Geometry, from: nat, to: nat): int
    requires g.clusterSize > 0
  {
    if from > to && ClusterOf(g, from) != ClusterOf(g, to) then ClusterOf(g, to)
    else ClusterOf(g, to) - ClusterOf(g, from)
  }

  class Volume {
    const g: Geometry
    const card: Card
    /** The cached FAT sector and its number within the FAT, -1 when nothing is cached. */
    var fatBuffer: Sector
    var fatIndex: int

    constructor (g: Geometry, card: Card)
      requires g.Valid()
      ensures Valid() && this.g == g && this.card == card
    {
      this.g, this.card := g, card;
      fatBuffer, fatIndex := Blank(), -1;
    }

    /** The cached FAT sector always equals the one on the card. */
    ghost predicate Valid()
      reads this, card
    {
      && g.Valid()
      && (fatIndex == -1 ||
          (0 <= fatIndex < g.fatSize && g.fatStart + fatIndex < |card.sectors| &&
           fatBuffer == card.sectors[g.fatStart + fatIndex]))
    }

    ghost predicate Ready(file: FileHandle)
      reads this, card, file
    {
      Valid() && file.On(g, card.sectors) && file.Positioned(g, card.sectors)
    }

    /** The FAT entry of a cluster, through the cache (the lookup shared by GetFATLinkImpl,
        FileNextSector and FileSeekImpl). */
    method NextLink(cluster: nat) returns (ok: bool, link: nat)
      requires Valid() && |card.sectors| <= TWO32
      requires DataCluster(g, card.sectors, cluster)
      modifies this`fatBuffer, this`fatIndex
      ensures Valid()
      ensures ok ==> link == Link(g, card.sectors, cluster)
      ensures card.healthy ==> ok
    {
      link := 0;
      ok := true;
      var at := cluster / g.LinksPerSector();
      FatInRange(cluster);
      if at != fatIndex {
        var data;
        ok, data := card.Read(g.fatStart + at);
        if !ok {
          return;
        }
        fatBuffer, fatIndex := data, at;
      }
      link := DecodeLink(g.fat32, fatBuffer, cluster % g.LinksPerSector());
    }

    lemma FatInRange(cluster: nat)
      requires g.Valid() && DataCluster(g, card.sectors, cluster)
      ensures g.fatStart + cluster / g.LinksPerSector() < |card.sectors|
    {
      MulLe(g.clusterSize, 0, cluster - 2);
    }

    /** The target's cluster is the one held, or the chain has it. */
    ghost predicate Reachable(file: FileHandle, from: nat, target: nat)
      requires g.Valid()
      reads card, file`startCluster
    {
      ClusterOf(g, target) == ClusterOf(g, from)
      || !EndMark(g, Chain(g, card.sectors, file.startCluster, ClusterOf(g, target)))
    }

    lemma ReachableInside(file: FileHandle, from: nat, target: nat)
      requires g.Valid() && file.On(g, card.sectors) && ClusterOf(g, target) < Clusters(g, file.size)
      ensures Reachable(file, from, target)
    {
      EndMarkIsNoCluster(g, card.sectors, Chain(g, card.sectors, file.startCluster, ClusterOf(g, target)));
    }

    /** FileSeekImpl for an absolute sector; with SEEK_CUR the source first adds the position, modulo
        2^32. Its `checked` flag only selects error reporting and is not modelled.
        On a working card a target up to `size / 512` is reached, with one exception: walking forward
        onto the end of a file that fills its last allocated cluster reads the end-of-chain link and fails.
        Every other outcome, a failed card read included, leaves the handle usable. */
    method Seek(file: FileHandle, target: u32) returns (ok: bool, ghost links: nat)
      requires Ready(file)
      modifies this`fatBuffer, this`fatIndex, file`sector, file`cluster
      ensures Valid()
      ensures target > file.size / 512 ==> !ok && file.sector == old(file.sector) && file.cluster == old(file.cluster)
      ensures ok ==> file.sector == target && links == LinksFollowed(g, old(file.sector), target)
      ensures ok || target > file.size / 512 || ClusterOf(g, target) < Clusters(g, file.size) ==> Ready(file)
      ensures card.healthy && target <= file.size / 512 ==>
                (ok <==> Reachable(file, old(file.sector), target))
      ensures card.healthy && target <= file.size / 512 && ClusterOf(g, target) < Clusters(g, file.size) ==> ok
      ensures card.healthy && target <= file.size / 512 && ClusterOf(g, target) == ClusterOf(g, old(file.sector)) ==> ok
    {
      hide ClusterOf, Clusters, WellFormed, Sectors, Link;
      ok, links := false, 0;
      if target > file.size / 512 {
        return;
      }
      FirstCluster(g);
      ClusterMonotone(g, file.sector, target);
      TargetInClusters(g, file.size, target);
      PositionInClusters(g, file.size, file.sector);
      if ClusterOf(g, target) < Clusters(g, file.size) {
        ReachableInside(file, file.sector, target);
        ReachableInside(file, 0, target);
      }
      if file.sector > target {
        if ClusterOf(g, file.sector) != ClusterOf(g, target) {
          file.cluster := file.startCluster;
          file.sector := 0;
        } else {
          file.sector := target;
        }
      }
      ok, links := WalkForward(file, target);
      if ok {
        file.sector := target;
      }
    }

    /** The forward loop of FileSeekImpl: one FAT link per cluster until the target's cluster. */
    method WalkForward(file: FileHandle, target: u32) returns (ok: bool, ghost links: nat)
      requires Ready(file) && target <= file.size / 512
      requires ClusterOf(g, file.sector) <= ClusterOf(g, target)
      modifies this`fatBuffer, this`fatIndex, file`sector, file`cluster
      ensures Valid()
      ensures links == ClusterOf(g, file.sector) - ClusterOf(g, old(file.sector))
      ensures ok ==> file.OnChain(g, card.sectors) && ClusterOf(g, file.sector) == ClusterOf(g, target)
      ensures !ok ==> ClusterOf(g, file.sector) < ClusterOf(g, target)
      ensures !ok ==> file.sector < target
      ensures !ok && ClusterOf(g, target) < Clusters(g, file.size) ==> !card.healthy && file.OnChain(g, card.sectors)
      ensures ok ==> Reachable(file, old(file.sector), target)
      ensures card.healthy && Reachable(file, old(file.sector), target) ==> ok
    {
      hide ClusterOf, Clusters, DataCluster, Sectors, Link;
      ok, links := true, 0;
      TargetInClusters(g, file.size, target);
      while ClusterOf(g, file.sector) != ClusterOf(g, target)
        invariant file.On(g, card.sectors) && Valid() && file.OnChain(g, card.sectors)
        invariant ClusterOf(g, file.sector) <= ClusterOf(g, target)
        invariant links == ClusterOf(g, file.sector) - ClusterOf(g, old(file.sector))
        invariant links > 0 ==> !EndMark(g, Chain(g, card.sectors, file.startCluster, ClusterOf(g, file.sector)))
        decreases ClusterOf(g, target) - ClusterOf(g, file.sector)
      {
        ClusterMonotone(g, file.sector, target);
        var link;
        ok, link := NextLink(file.cluster);
        if !ok {
          return;
        }
        ghost var k := ClusterOf(g, file.sector);
        file.cluster := link;
        assert link == Chain(g, card.sectors, file.startCluster, k + 1);
        if EndMark(g, link) {
          EndMarkIsNoCluster(g, card.sectors, link);
          assert k + 1 == ClusterOf(g, target);
          ok := false;
          return;
        }
        NextCluster(g, file.sector);
        file.sector := file.sector + g.clusterSize;
        links := links + 1;
      }
    }

    /** FileNextSector: one sector on, following a link at a cluster boundary. The position advances
        even when the call fails, so a link that cannot be read leaves the cluster one link behind. */
    method NextSector(file: FileHandle, ghost lag: nat) returns (ok: bool, ghost lag': nat)
      requires Valid() && file.On(g, card.sectors) && file.Behind(g, card.sectors, lag) && file.sector < TWO32 - 1
      modifies this`fatBuffer, this`fatIndex, file`sector, file`cluster
      ensures Valid() && file.Behind(g, card.sectors, lag')
      ensures file.sector == old(file.sector) + 1
      ensures lag' == (if ok || old(file.sector) >= file.size / 512 then lag else lag + 1)
      ensures lag <= lag' <= lag + (ClusterOf(g, file.sector) - ClusterOf(g, old(file.sector)))
      ensures old(file.sector) >= file.size / 512 ==> !ok
      ensures card.healthy && old(file.sector) < file.size / 512 ==> ok
    {
      hide ClusterOf, Clusters, DataCluster, ClusterOffset, Link;
      StepFacts(file);
      lag' := lag;
      file.sector := file.sector + 1;
      if file.sector > file.size / 512 {
        ok := false;
        return;
      }
      ok := true;
      if ClusterOffset(g, file.sector) == 0 {
        var link;
        ok, link := NextLink(file.cluster);
        if !ok {
          lag' := lag + 1;
          return;
        }
        file.cluster := link;
      }
    }

    lemma StepFacts(file: FileHandle)
      requires g.Valid()
      ensures var k := file.sector;
        && (ClusterOffset(g, k + 1) == 0 ==> ClusterOf(g, k + 1) == ClusterOf(g, k) + 1)
        && (ClusterOffset(g, k + 1) != 0 ==> ClusterOf(g, k + 1) == ClusterOf(g, k))
        && (k < file.size / 512 ==> ClusterOf(g, k) < Clusters(g, file.size))
        && (k >= file.size / 512 && ClusterOf(g, k + 1) < Clusters(g, file.size) ==> ClusterOffset(g, k + 1) != 0)
    {
      hide ClusterOf, Clusters, ClusterOffset;
      SectorStep(g, file.size, file.sector);
      if Sectors(file.size) <= file.sector + 1 {
        EndStep(g, file.size, file.sector + 1);
      }
    }

    /** FileRead: the sector under the position. */
    method FileRead(file: FileHandle) returns (ok: bool, data: Sector)
      requires g.Valid()
      ensures ok ==> data == SectorAt(card.sectors, Address(g, file.cluster, file.sector))
      ensures card.healthy ==> (ok <==> Address(g, file.cluster, file.sector) < |card.sectors|)
      ensures Ready(file) && file.sector < Sectors(file.size) ==>
                && (ok ==> data == FileSector(g, card.sectors, file.startCluster, file.sector))
                && (card.healthy ==> ok)
    {
      hide ClusterOf, Clusters, DataCluster, ClusterOffset, Chain;
      if Ready(file) && file.sector < Sectors(file.size) {
        SectorInClusters(g, file.size, file.sector);
        FileAddressExact(g, card.sectors, file.startCluster, file.size, file.sector);
      }
      ok, data := card.Read(Address(g, file.cluster, file.sector));
    }

    /** FileReadChecked: FileRead guarded against an empty file, the end of the file and an
        end-of-chain cluster. */
    method FileReadChecked(file: FileHandle) returns (ok: bool, data: Sector)
      requires Ready(file)
      ensures ok ==> file.sector < Sectors(file.size)
      ensures ok ==> data == FileSector(g, card.sectors, file.startCluster, file.sector)
      ensures card.healthy && file.sector < Sectors(file.size) ==> ok
    {
      data := Blank();
      hide ClusterOf, Clusters, ClusterOffset, Chain, Address;
      if file.sector < Sectors(file.size) {
        SectorInClusters(g, file.size, file.sector);
        FileAddressExact(g, card.sectors, file.startCluster, file.size, file.sector);
      }
      if file.size == 0 || file.sector > (file.size - 1) / 512 || file.cluster < 2 {
        ok := false;
        return;
      }
      ok, data := FileRead(file);
    }

    /** One turn of the FileReadExImpl loop: read the rest of the cluster, or `left` sectors if that
        is less, and advance. */
    method ReadRun(file: FileHandle, left: u32) returns (ok: bool, run: nat, data: seq<Sector>)
      requires Ready(file) && left > 0
      modifies this`fatBuffer, this`fatIndex, file`sector, file`cluster
      ensures Ready(file) && 0 < run <= left
      ensures ok ==> file.sector == old(file.sector) + run
      ensures old(file.sector) < Sectors(file.size) ==>
                && |data| <= run
                && data == FileSectors(g, card.sectors, file.startCluster, old(file.sector), |data|)
                && (ok ==> |data| == run)
      ensures card.healthy && old(file.sector) + left <= Sectors(file.size) ==> ok
    {
      hide *;
      ReadyFacts(file);
      OffsetInCluster(g, file.sector);
      run := g.clusterSize - ClusterOffset(g, file.sector);
      if left < run {
        run := left;
      }
      PositionOnCard(file, run);
      ok, data := card.ReadMultiple(Address(g, file.cluster, file.sector), run);
      if !ok {
        return;
      }
      ok := Advance(file, run);
    }

    /** Moves past a run just read, without following the link behind the last sector. */
    method Advance(file: FileHandle, run: nat) returns (ok: bool)
      requires Ready(file) && 0 < run <= g.clusterSize - ClusterOffset(g, file.sector)
      modifies this`fatBuffer, this`fatIndex, file`sector, file`cluster
      ensures Ready(file)
      ensures ok ==> file.sector == old(file.sector) + run
      ensures card.healthy && old(file.sector) + run <= Sectors(file.size) ==> ok
    {
      hide ClusterOf, ClusterOffset, Clusters, Chain, WellFormed, Reachable, Sectors, EndMark, Volume.Valid;
      SectorsAreCounted(file.size);
      NoWrap(file, run);
      EndInClusters(file, run);
      if file.size > 0 && file.sector + run == (file.size - 1) / 512 + 1 {
        file.sector := file.sector + run;
        ok := true;
      } else {
        ghost var links;
        ok, links := Seek(file, (file.sector + run) % TWO32);
      }
    }

    lemma NoWrap(file: FileHandle, run: nat)
      requires Ready(file) && run <= g.clusterSize
      ensures file.sector + run < TWO32 && g.Valid()
    {
    }

    lemma PositionOnCard(file: FileHandle, run: nat)
      requires Ready(file) && run <= g.clusterSize - ClusterOffset(g, file.sector)
      ensures file.sector < Sectors(file.size) ==>
                var at := Address(g, file.cluster, file.sector);
                && at < |card.sectors|
                && at + run <= |card.sectors|
                && forall m {:trigger FileSectors(g, card.sectors, file.startCluster, file.sector, m)} ::
                  0 <= m <= run ==>
                     card.sectors[at..at + m] == FileSectors(g, card.sectors, file.startCluster, file.sector, m)
    {
      hide ClusterOf, ClusterOffset, Clusters, Address, FileSectors, WellFormed, DataCluster;
      if file.sector < Sectors(file.size) {
        SectorInClusters(g, file.size, file.sector);
        FileAddressExact(g, card.sectors, file.startCluster, file.size, file.sector);
        forall m: nat | m <= run {
          RunSectors(g, card.sectors, file.startCluster, file.size, file.sector, m);
        }
        RunSectors(g, card.sectors, file.startCluster, file.size, file.sector, run);
      }
    }

    lemma EndInClusters(file: FileHandle, run: nat)
      requires Ready(file) && 0 < run <= g.clusterSize - ClusterOffset(g, file.sector)
      ensures file.sector + run < Sectors(file.size) ==> ClusterOf(g, file.sector + run) < Clusters(g, file.size)
      ensures file.sector + run == Sectors(file.size) && ClusterOf(g, file.sector + run) < Clusters(g, file.size) ==>
                ClusterOf(g, file.sector + run) == ClusterOf(g, file.sector)
    {
      hide *;
      ReadyFacts(file);
      SectorInClusters(g, file.size, file.sector + run);
      EndOutsideClusters(g, file.size);
      RunEnd(g, file.sector, run);
    }

    lemma ReadyFacts(file: FileHandle)
      requires Ready(file)
      ensures g.Valid() && g.clusterSize > 0
      ensures file.size / 512 <= Sectors(file.size)
      ensures file.sector < Sectors(file.size) ==> file.cluster >= 2
    {
      SectorInClusters(g, file.size, file.sector);
    }

    /** FileReadExImpl: `count` sectors from the position on, in runs that stay inside a cluster.
        The position only moves past sectors that were read, and never onto the end-of-chain link. */
    method ReadEx(file: FileHandle, count: u32, checked: bool) returns (ok: bool, data: seq<Sector>)
      requires Ready(file)
      modifies this`fatBuffer, this`fatIndex, file`sector, file`cluster
      ensures Ready(file)
      ensures ok ==> file.sector == old(file.sector) + count
      ensures checked && ok && count > 0 ==> old(file.sector) + count <= file.size / 512
      ensures old(file.sector) + count <= Sectors(file.size) ==>
                && |data| <= count
                && data == FileSectors(g, card.sectors, file.startCluster, old(file.sector), |data|)
                && (ok ==> |data| == count)
      ensures card.healthy && old(file.sector) + count <= (if checked then file.size / 512 else Sectors(file.size)) ==>
                ok
    {
      hide *;
      ReadyFacts(file);
      ok, data := true, [];
      if checked && count > 0 &&
         (file.sector >= file.size / 512 || count > file.size / 512 - file.sector || file.cluster < 2) {
        ok := false;
        return;
      }
      var left: nat := count;
      ghost var first := file.sector;
      while left > 0
        invariant Ready(file) && left <= count
        invariant file.sector == first + (count - left)
        invariant first + count <= Sectors(file.size) ==>
                    |data| == count - left
                    && data == FileSectors(g, card.sectors, file.startCluster, first, count - left)
      {
        var run, chunk;
        ghost var done := file.sector - first;
        ok, run, chunk := ReadRun(file, left);
        data := data + chunk;
        if first + count <= Sectors(file.size) {
          FileSectorsJoin(g, card.sectors, file.startCluster, first, done, |chunk|);
        }
        if !ok {
          return;
        }
        left := left - run;
      }
    }

    /** What FileWriteChecked accepts: a whole sector of a writable file. */
    predicate Writable(file: FileHandle)
      reads file
    {
      file.size >= 512 && file.sector < file.size / 512 && !file.readOnly
    }

    /** FileWriteImpl in its checked form. */
    method FileWriteChecked(file: FileHandle, data: Sector) returns (ok: bool)
      requires Ready(file)
      modifies card`sectors
      ensures Ready(file)
      ensures !Writable(file) ==> !ok && card.sectors == old(card.sectors)
      ensures Writable(file) ==> SameExcept(old(card.sectors), card.sectors,
                                                 FileAddress(g, old(card.sectors), file.startCluster, file.sector))
      ensures SameFat(g, old(card.sectors), card.sectors)
      ensures ok ==> FileSector(g, card.sectors, file.startCluster, file.sector) == data
      ensures card.healthy ==> (ok <==> 512 * (file.sector + 1) <= file.size && !file.readOnly)
      ensures ok ==> 512 * (file.sector + 1) <= file.size && !file.readOnly
    {
      ok := false;
      if file.size < 512 || file.sector >= file.size / 512 || file.cluster < 2 || file.readOnly {
        WritableInCluster(file);
        return;
      }
      WritableInCluster(file);
      ghost var before := card.sectors;
      ok := card.Write(Address(g, file.cluster, file.sector), data);
      WellFormedFrame(g, before, card.sectors, file.startCluster, file.size);
      ChainFrame(g, before, card.sectors, file.startCluster, ClusterOf(g, file.sector));
    }

    lemma WritableInCluster(file: FileHandle)
      requires Ready(file)
      ensures Writable(file) ==>
                && file.cluster == Chain(g, card.sectors, file.startCluster, ClusterOf(g, file.sector))
                && file.cluster >= 2
                && g.fatStart + g.fatSize <= FileAddress(g, card.sectors, file.startCluster, file.sector)
                && FileAddress(g, card.sectors, file.startCluster, file.sector) < |card.sectors|
    {
      if Writable(file) {
        SectorInClusters(g, file.size, file.sector);
        FileAddressExact(g, card.sectors, file.startCluster, file.size, file.sector);
      }
    }
  }

  lemma SectorsAreCounted(size: nat)
    ensures size > 0 ==> Sectors(size) == (size - 1) / 512 + 1
    ensures size / 512 <= Sectors(size) <= size / 512 + 1 && (size == 0 ==> Sectors(size) == 0)
  {
  }

  /** A run that stays in a cluster ends in it, or at offset 0 of the next one. */
  lemma RunEnd(g: Geometry, k: nat, run: nat)
    requires g.clusterSize > 0 && run <= g.clusterSize - ClusterOffset(g, k)
    ensures ClusterOf(g, k + run) == ClusterOf(g, k) || ClusterOffset(g, k + run) == 0
  {
    if ClusterOffset(g, k) + run < g.clusterSize {
      InsideCluster(k, run, g.clusterSize);
    } else {
      QuotientUnique(k + run, g.clusterSize, ClusterOf(g, k) + 1, 0);
    }
  }

  lemma FileSectorsJoin(g: Geometry, disk: seq<Sector>, start: nat, from: nat, a: nat, b: nat)
    requires g.clusterSize > 0
    ensures FileSectors(g, disk, start, from, a) + FileSectors(g, disk, start, from + a, b) ==
              FileSectors(g, disk, start, from, a + b)
  {
  }

  /** A position in the file or at its end lies in the file's clusters or right behind them. */
  lemma PositionInClusters(g: Geometry, size: nat, k: nat)
    requires g.Valid() && k <= Sectors(size)
    ensures ClusterOf(g, k) <= Clusters(g, size)
  {
    QuotientMonotone(k, Sectors(size) + g.clusterSize - 1, g.clusterSize);
  }

  /** A seek target lies in the file's clusters or is exactly its end. */
  lemma TargetInClusters(g: Geometry, size: nat, target: nat)
    requires g.Valid() && target <= size / 512
    ensures target <= Sectors(size)
    ensures ClusterOf(g, target) <= Clusters(g, size)
    ensures ClusterOf(g, target) == Clusters(g, size) ==> target == Sectors(size)
  {
    SectorInClusters(g, size, target);
    CeilBounds(Sectors(size), g.clusterSize);
    QuotientMonotone(target, Sectors(size) + g.clusterSize - 1, g.clusterSize);
  }

  /** One sector further stays in the cluster or opens the next one at offset 0. */
  lemma SectorStep(g: Geometry, size: nat, k: nat)
    requires g.Valid()
    ensures ClusterOffset(g, k + 1) == 0 ==> ClusterOf(g, k + 1) == ClusterOf(g, k) + 1
    ensures ClusterOffset(g, k + 1) != 0 ==> ClusterOf(g, k + 1) == ClusterOf(g, k)
    ensures k < Sectors(size) ==> ClusterOf(g, k) < Clusters(g, size)
  {
    hide Clusters, Sectors;
    SectorInClusters(g, size, k);
    var cs := g.clusterSize;
    if k % cs + 1 < cs {
      QuotientUnique(k + 1, cs, k / cs, k % cs + 1);
    } else {
      QuotientUnique(k + 1, cs, k / cs + 1, 0);
    }
  }

  /** Only the tail of the last cluster lies behind the end of the file and still in a cluster. */
  lemma EndStep(g: Geometry, size: nat, k: nat)
    requires g.Valid() && Sectors(size) <= k
    ensures ClusterOf(g, k) < Clusters(g, size) ==> ClusterOffset(g, k) != 0
  {
    CeilBounds(Sectors(size), g.clusterSize);
    if ClusterOf(g, k) < Clusters(g, size) {
      EndStepArithmetic(Sectors(size), k, g.clusterSize, Clusters(g, size));
    }
  }

  lemma EndStepArithmetic(t: nat, k: nat, cs: nat, n: nat)
    requires cs > 0 && t <= k && k / cs < n && cs * n < t + cs
    ensures k % cs != 0
  {
    MulLe(cs, k / cs + 1, n);
  }

  /** A handle whose cluster has fallen behind reads the wrong place on the card: the address is right exactly if it
      has not. */
  lemma LagMisreads(g: Geometry, disk: seq<Sector>, file: FileHandle, lag: nat)
    requires g.Valid() && file.On(g, disk) && file.Behind(g, disk, lag) && file.sector < Sectors(file.size)
    ensures Address(g, file.cluster, file.sector) == FileAddress(g, disk, file.startCluster, file.sector) <==> lag == 0
  {
    hide ClusterOf, Clusters, ClusterOffset, Address, Link, DataCluster;
    var k := ClusterOf(g, file.sector);
    SectorInClusters(g, file.size, file.sector);
    if lag > 0 {
      ChainInjective(g, disk, file.startCluster, file.size, k - lag, k);
      AddressExact(g, disk, file.cluster, file.sector);
      AddressExact(g, disk, Chain(g, disk, file.startCluster, k), file.sector);
      OffsetInCluster(g, file.sector);
      if Address(g, file.cluster, file.sector) == FileAddress(g, disk, file.startCluster, file.sector) {
        TwoUp(g, disk, file.cluster);
        TwoUp(g, disk, Chain(g, disk, file.startCluster, k));
        AddressInjective(g, file.cluster, ClusterOffset(g, file.sector), Chain(g, disk, file.startCluster, k),
          ClusterOffset(g, file.sector));
        assert false;
      }
    }
  }

  lemma TwoUp(g: Geometry, disk: seq<Sector>, cluster: nat)
    requires DataCluster(g, disk, cluster)
    ensures cluster >= 2
  {
  }
}
