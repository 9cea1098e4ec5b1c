/** What a FAT volume means: the cluster chain of a file and the sectors it names, as pure functions
    of the card's contents. Everything here is the reference against which the cached, incremental
    and indexed readers are proved. */
module FatChain {
  import opened Storage

  /** The volume parameters FindDrive leaves behind. */
  datatype Geometry = Geometry(
    fat32: bool,
    fatStart: nat,
    fatSize: nat,
    fatNumber: nat,
    dataStart: nat,
    clusterSize: nat)
  {
    /** Links held by one FAT sector. */
    function LinksPerSector(): (n: nat)
      ensures n == 128 || n == 256
    {
      if fat32 then 128 else 256
    }

    /** The first link value that means end of chain. */
    function EndOfChain(): nat {
      if fat32 then 0x0FFF_FFF8 else 0xFFF8
    }

    ghost predicate Valid() {
      && clusterSize in {1, 2, 4, 8, 16, 32, 64, 128}
      && fatNumber >= 1
      && fatStart + fatNumber * fatSize <= dataStart
      && fatStart + fatSize <= dataStart
    }
  }

  /** Little-endian link `i` of a FAT sector; the top four bits of a FAT32 entry are reserved. */
  function DecodeLink(fat32: bool, s: Sector, i: nat): (link: nat)
    requires i < if fat32 then 128 else 256
    ensures link < if fat32 then 0x1000_0000 else 0x1_0000
  {
    if fat32 then
      s[4 * i] as int + 0x100 * s[4 * i + 1] as int + 0x1_0000 * s[4 * i + 2] as int
        + 0x100_0000 * (s[4 * i + 3] as int % 16)
    else
      s[2 * i] as int + 0x100 * s[2 * i + 1] as int
  }

  /** An entry that holds a number, least significant byte first, decodes to that number; on FAT32, to its lower 28
      bits. */
  lemma LinkLittleEndian(fat32: bool, s: Sector, i: nat, n: nat)
    requires i < if fat32 then 128 else 256
    requires fat32 ==>
              n < 0x1_0000_0000 && s[4 * i..4 * i + 4] == [n % 256, n / 256 % 256, n / 65536 % 256, n / 16777216]
    requires !fat32 ==> n < 0x1_0000 && s[2 * i..2 * i + 2] == [n % 256, n / 256]
    ensures DecodeLink(fat32, s, i) == if fat32 then n % 0x1000_0000 else n
  {
    if fat32 {
      var e := s[4 * i..4 * i + 4];
      assert e[0] == s[4 * i] && e[1] == s[4 * i + 1] && e[2] == s[4 * i + 2] && e[3] == s[4 * i + 3];
      FourDigits(n);
    } else {
      var e := s[2 * i..2 * i + 2];
      assert e[0] == s[2 * i] && e[1] == s[2 * i + 1];
    }
  }

  lemma FourDigits(n: nat)
    ensures n % 256 + 256 * (n / 256 % 256) + 65536 * (n / 65536 % 256) + 16777216 * (n / 16777216 % 16)
         == n % 0x1000_0000
  {
    var a, b, c := n / 256, n / 65536, n / 16777216;
    assert b == a / 256 && c == b / 256;
    assert n == 256 * a + n % 256 && a == 256 * b + a % 256 && b == 256 * c + b % 256 && c == 16 * (c / 16) + c % 16;
    var r := n % 256 + 256 * (a % 256) + 65536 * (b % 256) + 16777216 * (c % 16);
    assert n == 0x1000_0000 * (c / 16) + r && 0 <= r < 0x1000_0000;
    QuotientUnique(n, 0x1000_0000, c / 16, r);
  }

  /** The link stored for a cluster in the first FAT, 0 outside the table. */
  function Link(g: Geometry, disk: seq<Sector>, cluster: nat): nat {
    var at := cluster / g.LinksPerSector();
    if at < g.fatSize && g.fatStart + at < |disk| then
      DecodeLink(g.fat32, disk[g.fatStart + at], cluster % g.LinksPerSector())
    else 0
  }

  /** The first FAT holds 128 or 256 links to a sector, cluster after cluster. */
  lemma LinkPlace(g: Geometry, disk: seq<Sector>, at: nat, i: nat)
    requires at < g.fatSize && g.fatStart + at < |disk|
    ensures g.fat32 && i < 128 ==> Link(g, disk, 128 * at + i) == DecodeLink(true, disk[g.fatStart + at], i)
    ensures !g.fat32 && i < 256 ==> Link(g, disk, 256 * at + i) == DecodeLink(false, disk[g.fatStart + at], i)
  {
    hide DecodeLink;
    var l := g.LinksPerSector();
    if i < l {
      QuotientUnique(l * at + i, l, at, i);
    }
  }

  /** The cluster reached from `start` by following `k` links. */
  function Chain(g: Geometry, disk: seq<Sector>, start: nat, k: nat): nat {
    if k == 0 then start else Link(g, disk, Chain(g, disk, start, k - 1))
  }

  /** A cluster number whose data sectors and FAT entry are both on the card. */
  ghost predicate DataCluster(g: Geometry, disk: seq<Sector>, cluster: nat) {
    && 2 <= cluster < g.EndOfChain()
    && cluster / g.LinksPerSector() < g.fatSize
    && g.dataStart + g.clusterSize * (cluster - 2) + g.clusterSize <= |disk|
  }

  /** The cluster, counted from the start of the file, that holds sector `k`, and its place there.
      The source gets them as `(a ^ b) & mask` (are two sectors in the same cluster) and `k & ~mask`
      with `mask = ~(clusterSize - 1)`; the cluster size is a power of two, so these are the quotient
      and the remainder. */
  function ClusterOf(g: Geometry, k: nat): nat
    requires g.clusterSize > 0
  {
    k / g.clusterSize
  }

  function ClusterOffset(g: Geometry, k: nat): nat
    requires g.clusterSize > 0
  {
    k % g.clusterSize
  }

  /** Sectors needed for a file of `size` bytes, a final partial one included. */
  function Sectors(size: nat): nat {
    (size + 511) / 512
  }

  function Clusters(g: Geometry, size: nat): nat
    requires g.clusterSize > 0
  {
    (Sectors(size) + g.clusterSize - 1) / g.clusterSize
  }

  /** A link value the seek loop refuses to follow. */
  predicate EndMark(g: Geometry, cluster: nat) {
    cluster < 2 || cluster >= g.EndOfChain()
  }

  lemma EndMarkBounds(g: Geometry, cluster: nat)
    ensures !EndMark(g, cluster) <==> 2 <= cluster <= if g.fat32 then 0x0FFF_FFF7 else 0xFFF7
  {
  }

  /** The least number of sectors that take in `size` bytes, and the least number of clusters that take those in. */
  lemma LeastSectors(g: Geometry, size: nat)
    requires g.clusterSize > 0
    ensures size <= 512 * Sectors(size) < size + 512
    ensures Sectors(size) <= g.clusterSize * Clusters(g, size) < Sectors(size) + g.clusterSize
  {
    CeilBounds(Sectors(size), g.clusterSize);
  }

  lemma EndMarkIsNoCluster(g: Geometry, disk: seq<Sector>, cluster: nat)
    ensures EndMark(g, cluster) ==> !DataCluster(g, disk, cluster)
  {
  }

  /** The chain consists of `m` data clusters and an end mark behind them. */
  ghost predicate EndsAt(g: Geometry, disk: seq<Sector>, start: nat, m: nat) {
    (forall k :: 0 <= k < m ==> DataCluster(g, disk, Chain(g, disk, start, k))) && EndMark(g, Chain(g, disk, start, m))
  }

  /** Every cluster the size calls for is a data cluster, and the chain ends behind them; more clusters may be
      allocated than the size calls for. */
  ghost predicate WellFormed(g: Geometry, disk: seq<Sector>, start: nat, size: nat)
    requires g.Valid()
  {
    && |disk| <= TWO32
    && (forall k :: 0 <= k < Clusters(g, size) ==> DataCluster(g, disk, Chain(g, disk, start, k)))
    && (Clusters(g, size) > 0 ==> exists m: nat :: Clusters(g, size) <= m && EndsAt(g, disk, start, m))
  }

  /** The card address FileRead computes, in the 32-bit arithmetic of the controller. */
  function Address(g: Geometry, cluster: nat, sector: nat): u32
    requires g.clusterSize > 0
  {
    (g.dataStart + g.clusterSize * (cluster - 2) + ClusterOffset(g, sector)) % TWO32
  }

  /** Where sector `k` of the file lives on the card. */
  function FileAddress(g: Geometry, disk: seq<Sector>, start: nat, k: nat): u32
    requires g.clusterSize > 0
  {
    Address(g, Chain(g, disk, start, ClusterOf(g, k)), k)
  }

  function SectorAt(disk: seq<Sector>, at: nat): Sector {
    if at < |disk| then disk[at] else Blank()
  }

  /** Sector `k` of the file starting at cluster `start`. */
  function FileSector(g: Geometry, disk: seq<Sector>, start: nat, k: nat): Sector
    requires g.clusterSize > 0
  {
    SectorAt(disk, FileAddress(g, disk, start, k))
  }

  /** Sectors `from .. from + count` of the file. */
  function FileSectors(g: Geometry, disk: seq<Sector>, start: nat, from: nat, count: nat): (s: seq<Sector>)
    requires g.clusterSize > 0
    ensures |s| == count
    ensures forall i :: 0 <= i < count ==> s[i] == FileSector(g, disk, start, from + i)
  {
    if count == 0 then []
    else FileSectors(g, disk, start, from, count - 1) + [FileSector(g, disk, start, from + count - 1)]
  }

  /** Byte `k` of the file. */
  function FileByte(g: Geometry, disk: seq<Sector>, start: nat, k: nat): byte
    requires g.clusterSize > 0
  {
    FileSector(g, disk, start, k / 512)[k % 512]
  }

  /** Bytes `from .. from + count` of the file. */
  function FileBytes(g: Geometry, disk: seq<Sector>, start: nat, from: nat, count: nat): (s: seq<byte>)
    requires g.clusterSize > 0
    ensures |s| == count
    ensures forall i :: 0 <= i < count ==> s[i] == FileByte(g, disk, start, from + i)
  {
    if count == 0 then [] else FileBytes(g, disk, start, from, count - 1) + [FileByte(g, disk, start, from + count - 1)]
  }

  lemma FileBytesJoin(g: Geometry, disk: seq<Sector>, start: nat, from: nat, a: nat, b: nat)
    requires g.clusterSize > 0
    ensures FileBytes(g, disk, start, from, a) + FileBytes(g, disk, start, from + a, b) ==
              FileBytes(g, disk, start, from, a + b)
  {
    hide FileByte;
  }

  /** A stretch of one sector is that many bytes of the file. */
  lemma {:induction false} SectorBytes(g: Geometry, disk: seq<Sector>, start: nat, k: nat, a: nat, b: nat)
    requires g.clusterSize > 0 && a <= b <= 512
    ensures FileSector(g, disk, start, k)[a..b] == FileBytes(g, disk, start, 512 * k + a, b - a)
  {
    hide FileSector;
    if a < b {
      SectorBytes(g, disk, start, k, a, b - 1);
      var s := FileSector(g, disk, start, k);
      assert s[a..b] == s[a..b - 1] + [s[b - 1]];
      assert (512 * k + (b - 1)) / 512 == k && (512 * k + (b - 1)) % 512 == b - 1;
    }
  }

  // ---------------------------------------------------------------- cluster arithmetic

  lemma MulLe(c: nat, a: int, b: int)
    requires a <= b
    ensures c * a <= c * b
  {
  }

  lemma NextQuotient(a: nat, cs: nat)
    requires cs > 0
    ensures (a + cs) / cs == a / cs + 1
  {
    assert a + cs == cs * (a / cs + 1) + a % cs;
    QuotientUnique(a + cs, cs, a / cs + 1, a % cs);
  }

  lemma QuotientUnique(a: nat, cs: nat, q: nat, r: nat)
    requires cs > 0 && r < cs && a == cs * q + r
    ensures a / cs == q && a % cs == r
  {
    assert cs * (a / cs) + a % cs == a;
    if a / cs > q {
      MulLe(cs, q + 1, a / cs);
    } else if a / cs < q {
      MulLe(cs, a / cs + 1, q);
    }
  }

  lemma QuotientMonotone(a: nat, b: nat, cs: nat)
    requires cs > 0 && a <= b
    ensures a / cs <= b / cs
  {
    if a / cs > b / cs {
      MulLe(cs, b / cs + 1, a / cs);
    }
  }

  lemma SameQuotient(a: nat, b: nat, cs: nat)
    requires cs > 0 && a / cs == b / cs
    ensures b % cs - a % cs == b - a
  {
    assert a == cs * (a / cs) + a % cs && b == cs * (b / cs) + b % cs;
  }

  /** Moving inside one cluster keeps the quotient and adds to the remainder. */
  lemma InsideCluster(s: nat, i: nat, cs: nat)
    requires cs > 0 && s % cs + i < cs
    ensures (s + i) / cs == s / cs && (s + i) % cs == s % cs + i
  {
    QuotientUnique(s + i, cs, s / cs, s % cs + i);
  }

  lemma FirstCluster(g: Geometry)
    requires g.clusterSize > 0
    ensures ClusterOf(g, 0) == 0
  {
  }

  /** One cluster further is one quotient more. */
  lemma NextCluster(g: Geometry, k: nat)
    requires g.clusterSize > 0
    ensures ClusterOf(g, k + g.clusterSize) == ClusterOf(g, k) + 1
  {
    NextQuotient(k, g.clusterSize);
  }

  lemma ClusterMonotone(g: Geometry, a: nat, b: nat)
    requires g.clusterSize > 0
    ensures a <= b ==> ClusterOf(g, a) <= ClusterOf(g, b)
    ensures ClusterOf(g, a) < ClusterOf(g, b) ==> a < b
  {
    if a <= b {
      QuotientMonotone(a, b, g.clusterSize);
    } else {
      QuotientMonotone(b, a, g.clusterSize);
    }
  }

  lemma CeilBounds(t: nat, cs: nat)
    requires cs > 0
    ensures var n := (t + cs - 1) / cs; t <= cs * n < t + cs && n <= t
  {
    var n := (t + cs - 1) / cs;
    if n > t {
      MulLe(cs, t + 1, n);
      MulLe(t, 1, cs);
    }
  }

  /** `k / cs` counts a needed cluster exactly when `k` is below the last cluster's end. */
  lemma CeilQuotient(t: nat, cs: nat, k: nat)
    requires cs > 0
    ensures k / cs < (t + cs - 1) / cs <==> k < cs * ((t + cs - 1) / cs)
  {
    var n := (t + cs - 1) / cs;
    if k / cs < n {
      MulLe(cs, k / cs + 1, n);
    } else {
      MulLe(cs, n, k / cs);
    }
  }

  /** The sectors of a file lie in its clusters; beyond them only the unused tail of the last
      cluster does. */
  lemma SectorInClusters(g: Geometry, size: nat, k: nat)
    requires g.Valid()
    ensures k < Sectors(size) ==> ClusterOf(g, k) < Clusters(g, size)
    ensures ClusterOf(g, k) < Clusters(g, size) ==> k < Sectors(size) + g.clusterSize - 1
    ensures Clusters(g, size) <= Sectors(size)
  {
    CeilBounds(Sectors(size), g.clusterSize);
    CeilQuotient(Sectors(size), g.clusterSize, k);
  }

  /** At an exact cluster boundary the end of the file is already outside its clusters. */
  lemma EndOutsideClusters(g: Geometry, size: nat)
    requires g.Valid()
    ensures ClusterOf(g, Sectors(size)) < Clusters(g, size) <==> ClusterOffset(g, Sectors(size)) != 0
  {
    hide Sectors;
    var t, cs := Sectors(size), g.clusterSize;
    CeilBounds(t, cs);
    CeilQuotient(t, cs, t);
    if t % cs == 0 {
      QuotientUnique(t + cs - 1, cs, t / cs, cs - 1);
    }
  }

  /** The 32-bit address arithmetic is exact for a data cluster. */
  lemma AddressExact(g: Geometry, disk: seq<Sector>, cluster: nat, sector: nat)
    requires g.Valid() && |disk| <= TWO32 && DataCluster(g, disk, cluster)
    ensures Address(g, cluster, sector) == g.dataStart + g.clusterSize * (cluster - 2) + ClusterOffset(g, sector)
    ensures g.dataStart <= Address(g, cluster, sector) < |disk|
  {
  }

  lemma FileAddressExact(g: Geometry, disk: seq<Sector>, start: nat, size: nat, k: nat)
    requires g.Valid() && WellFormed(g, disk, start, size) && k < Sectors(size)
    ensures DataCluster(g, disk, Chain(g, disk, start, ClusterOf(g, k)))
    ensures g.dataStart <= FileAddress(g, disk, start, k) < |disk|
    ensures FileSector(g, disk, start, k) == disk[FileAddress(g, disk, start, k)]
  {
    SectorInClusters(g, size, k);
    AddressExact(g, disk, Chain(g, disk, start, ClusterOf(g, k)), k);
  }

  /** Sector `r` of cluster `q` of a file is sector `r` behind the place of that cluster, which is found by following
      `q` links; the first data cluster has number 2. */
  lemma FilePlace(g: Geometry, disk: seq<Sector>, start: nat, size: nat, q: nat, r: nat)
    requires g.Valid() && WellFormed(g, disk, start, size) && r < g.clusterSize && g.clusterSize * q + r < Sectors(size)
    ensures Chain(g, disk, start, q) >= 2
    ensures var k := g.clusterSize * q + r;
      FileAddress(g, disk, start, k) == g.dataStart + g.clusterSize * (Chain(g, disk, start, q) - 2) + r
  {
    hide Chain, Sectors, Clusters, DataCluster;
    var k := g.clusterSize * q + r;
    QuotientUnique(k, g.clusterSize, q, r);
    FileAddressExact(g, disk, start, size, k);
    AddressExact(g, disk, Chain(g, disk, start, q), k);
  }

  lemma OffsetInCluster(g: Geometry, k: nat)
    requires g.clusterSize > 0
    ensures ClusterOffset(g, k) < g.clusterSize
  {
  }

  /** Sectors that share a cluster are neighbours on the card. */
  lemma RunSector(g: Geometry, disk: seq<Sector>, start: nat, size: nat, k: nat, i: nat)
    requires g.Valid() && WellFormed(g, disk, start, size) && k < Sectors(size)
    requires ClusterOffset(g, k) + i < g.clusterSize
    ensures FileAddress(g, disk, start, k) + i < |disk|
    ensures FileSector(g, disk, start, k + i) == disk[FileAddress(g, disk, start, k) + i]
  {
    hide Address, Clusters, Sectors;
    InsideCluster(k, i, g.clusterSize);
    SectorInClusters(g, size, k);
    var c := Chain(g, disk, start, ClusterOf(g, k));
    AddressExact(g, disk, c, k);
    AddressExact(g, disk, c, k + i);
  }

  /** A run that stays in one cluster is one stretch of the card. */
  lemma {:induction false} RunSectors(g: Geometry, disk: seq<Sector>, start: nat, size: nat, k: nat, m: nat)
    requires g.Valid() && WellFormed(g, disk, start, size) && k < Sectors(size)
    requires ClusterOffset(g, k) + m <= g.clusterSize
    ensures FileAddress(g, disk, start, k) + m <= |disk|
    ensures var at := FileAddress(g, disk, start, k);
            disk[at..at + m] == FileSectors(g, disk, start, k, m)
  {
    hide FileAddress, FileSector, WellFormed, ClusterOffset, DataCluster;
    if m == 0 {
      FileAddressExact(g, disk, start, size, k);
    } else {
      RunSectors(g, disk, start, size, k, m - 1);
      RunSector(g, disk, start, size, k, m - 1);
      var at := FileAddress(g, disk, start, k);
      assert disk[at..at + m] == disk[at..at + (m - 1)] + [disk[at + (m - 1)]];
    }
  }

  // ---------------------------------------------------------------- chains

  lemma {:induction false} ChainSplit(g: Geometry, disk: seq<Sector>, start: nat, j: nat, m: nat)
    ensures Chain(g, disk, start, j + m) == Chain(g, disk, Chain(g, disk, start, j), m)
  {
    hide Link;
    if m > 0 {
      ChainSplit(g, disk, start, j, m - 1);
    }
  }

  /** The clusters of a file are pairwise distinct: a repeated one would make the chain cycle and
      never reach its end. */
  lemma ChainInjective(g: Geometry, disk: seq<Sector>, start: nat, size: nat, i: nat, j: nat)
    requires g.Valid() && WellFormed(g, disk, start, size)
    requires i < j < Clusters(g, size)
    ensures Chain(g, disk, start, i) != Chain(g, disk, start, j)
  {
    hide Link, DataCluster, Clusters;
    var n: nat :| Clusters(g, size) <= n && EndsAt(g, disk, start, n);
    ChainSplit(g, disk, start, i, n - j);
    ChainSplit(g, disk, start, j, n - j);
    assert DataCluster(g, disk, Chain(g, disk, start, i + (n - j)));
    EndMarkIsNoCluster(g, disk, Chain(g, disk, start, n));
  }

  lemma AddressInjective(g: Geometry, c: nat, r: nat, d: nat, q: nat)
    requires g.Valid() && r < g.clusterSize && q < g.clusterSize
    requires g.clusterSize * (c - 2) + r == g.clusterSize * (d - 2) + q
    ensures c == d && r == q
  {
    if c > d {
      MulLe(g.clusterSize, d - 1, c - 2);
    } else if c < d {
      MulLe(g.clusterSize, c - 1, d - 2);
    }
  }

  /** Different sectors of one file live at different card addresses. */
  lemma FileAddressInjective(g: Geometry, disk: seq<Sector>, start: nat, size: nat, i: nat, j: nat)
    requires g.Valid() && WellFormed(g, disk, start, size)
    requires i < j < Sectors(size)
    ensures FileAddress(g, disk, start, i) != FileAddress(g, disk, start, j)
  {
    var cs := g.clusterSize;
    SectorInClusters(g, size, i);
    SectorInClusters(g, size, j);
    QuotientMonotone(i, j, cs);
    var ci, cj := Chain(g, disk, start, i / cs), Chain(g, disk, start, j / cs);
    AddressExact(g, disk, ci, i);
    AddressExact(g, disk, cj, j);
    if i / cs < j / cs {
      ChainInjective(g, disk, start, size, i / cs, j / cs);
      if FileAddress(g, disk, start, i) == FileAddress(g, disk, start, j) {
        AddressInjective(g, ci, i % cs, cj, j % cs);
      }
    } else {
      SameQuotient(i, j, cs);
    }
  }

  /** Chains depend only on the first FAT. */
  ghost predicate SameFat(g: Geometry, before: seq<Sector>, after: seq<Sector>) {
    && |before| == |after|
    && forall i :: g.fatStart <= i < g.fatStart + g.fatSize && i < |before| ==> after[i] == before[i]
  }

  lemma LinkFrame(g: Geometry, before: seq<Sector>, after: seq<Sector>, cluster: nat)
    requires SameFat(g, before, after)
    ensures Link(g, after, cluster) == Link(g, before, cluster)
  {
  }

  lemma {:induction false} ChainFrame(g: Geometry, before: seq<Sector>, after: seq<Sector>, start: nat, k: nat)
    requires SameFat(g, before, after)
    ensures Chain(g, after, start, k) == Chain(g, before, start, k)
  {
    hide Link, SameFat;
    if k > 0 {
      ChainFrame(g, before, after, start, k - 1);
      LinkFrame(g, before, after, Chain(g, before, start, k - 1));
    }
  }

  lemma WellFormedFrame(g: Geometry, before: seq<Sector>, after: seq<Sector>, start: nat, size: nat)
    requires g.Valid() && SameFat(g, before, after) && WellFormed(g, before, start, size)
    ensures WellFormed(g, after, start, size)
  {
    forall k: nat ensures Chain(g, after, start, k) == Chain(g, before, start, k) {
      ChainFrame(g, before, after, start, k);
    }
    if Clusters(g, size) > 0 {
      var m: nat :| Clusters(g, size) <= m && EndsAt(g, before, start, m);
      assert EndsAt(g, after, start, m);
    }
  }
}
