/** FileCreate: the first free cluster becomes a one-cluster chain in every copy of the FAT. */
module FatCreate {
  import opened Storage
  import opened FatChain
  import opened FatFile

  // ---------------------------------------------------------------- FAT entries

  /** All bytes of entry `i` are 0: the test for a free cluster does not mask the reserved bits. */
  predicate EntryZero(fat32: bool, s: Sector, i: nat)
    requires i < if fat32 then 128 else 256
  {
    if fat32 then s[4 * i] == 0 && s[4 * i + 1] == 0 && s[4 * i + 2] == 0 && s[4 * i + 3] == 0
    else s[2 * i] == 0 && s[2 * i + 1] == 0
  }

  /** Entry `i` set to end of chain. */
  function MarkEnd(fat32: bool, s: Sector, i: nat): (t: Sector)
    requires i < if fat32 then 128 else 256
    ensures DecodeLink(fat32, t, i) == if fat32 then 0x0FFF_FFFF else 0xFFFF
    ensures forall j :: 0 <= j < (if fat32 then 128 else 256) && j != i ==>
              DecodeLink(fat32, t, j) == DecodeLink(fat32, s, j)
  {
    if fat32 then s[4 * i := 0xFF][4 * i + 1 := 0xFF][4 * i + 2 := 0xFF][4 * i + 3 := 0x0F]
    else s[2 * i := 0xFF][2 * i + 1 := 0xFF]
  }

  /** The entry, byte by byte: free if all are 0, and marked as the end of a chain with nothing else changed. */
  lemma EntryBytes(fat32: bool, s: Sector, i: nat)
    requires i < if fat32 then 128 else 256
    ensures fat32 ==> (EntryZero(fat32, s, i) <==> s[4 * i..4 * i + 4] == [0, 0, 0, 0])
    ensures !fat32 ==> (EntryZero(fat32, s, i) <==> s[2 * i..2 * i + 2] == [0, 0])
    ensures fat32 ==> MarkEnd(fat32, s, i) == s[..4 * i] + [0xFF, 0xFF, 0xFF, 0x0F] + s[4 * i + 4..]
    ensures !fat32 ==> MarkEnd(fat32, s, i) == s[..2 * i] + [0xFF, 0xFF] + s[2 * i + 2..]
  {
    if fat32 {
      var e := s[4 * i..4 * i + 4];
      assert e[0] == s[4 * i] && e[1] == s[4 * i + 1] && e[2] == s[4 * i + 2] && e[3] == s[4 * i + 3];
    } else {
      var e := s[2 * i..2 * i + 2];
      assert e[0] == s[2 * i] && e[1] == s[2 * i + 1];
    }
  }

  /** The first FAT has a free entry for the cluster. */
  predicate Unused(g: Geometry, disk: seq<Sector>, cluster: nat) {
    var at := cluster / g.LinksPerSector();
    at < g.fatSize && g.fatStart + at < |disk|
    && EntryZero(g.fat32, disk[g.fatStart + at], cluster % g.LinksPerSector())
  }

  ghost predicate LowestUnused(g: Geometry, disk: seq<Sector>, cluster: nat) {
    2 <= cluster && Unused(g, disk, cluster) && forall d :: 2 <= d < cluster ==> !Unused(g, disk, d)
  }

  /** The cluster of entry `i` of FAT sector `at`. */
  function ClusterAt(g: Geometry, at: nat, i: nat): (c: nat)
    requires i < g.LinksPerSector()
    ensures c / g.LinksPerSector() == at && c % g.LinksPerSector() == i
  {
    var c := g.LinksPerSector() * at + i;
    QuotientFact(c, g.LinksPerSector(), at, i);
    c
  }

  lemma QuotientFact(c: nat, l: nat, at: nat, i: nat)
    requires l > 0 && i < l && c == l * at + i
    ensures c / l == at && c % l == i
  {
    QuotientUnique(c, l, at, i);
  }

  /** Clusters whose entries come before entry `i` of FAT sector `at`. */
  predicate Before(g: Geometry, c: nat, at: nat, i: nat) {
    c / g.LinksPerSector() < at || (c / g.LinksPerSector() == at && c % g.LinksPerSector() < i)
  }

  lemma BeforeOrder(g: Geometry, c: nat, at: nat, i: nat)
    requires i < g.LinksPerSector()
    ensures Before(g, c, at, i) <==> c < ClusterAt(g, at, i)
  {
    var l, d := g.LinksPerSector(), ClusterAt(g, at, i);
    assert c == l * (c / l) + c % l && d == l * at + i;
    if c / l < at {
      MulLe(l, c / l + 1, at);
    } else if c / l > at {
      MulLe(l, at + 1, c / l);
    }
  }

  /** Sectors before FAT copy `j`. */
  function Ahead(g: Geometry, j: nat): nat {
    j * g.fatSize
  }

  lemma AheadMono(g: Geometry, j: nat, k: nat)
    ensures j < k ==> Ahead(g, j) + g.fatSize <= Ahead(g, k)
    ensures Ahead(g, 0) == 0
  {
    if j < k {
      MulLe(g.fatSize, j + 1, k);
    }
  }

  lemma AheadAll(g: Geometry)
    requires g.Valid()
    ensures g.fatStart + Ahead(g, g.fatNumber) <= g.dataStart
  {
  }

  /** Sector `at` of FAT copy `j`. */
  function CopyAt(g: Geometry, j: nat, at: nat): nat {
    g.fatStart + Ahead(g, j) + at
  }

  /** FAT copies follow each other and do not overlap. */
  lemma CopyLaws(g: Geometry, j: nat, at: nat, k: nat, s: nat)
    requires g.Valid() && j < g.fatNumber && k < g.fatNumber && at < g.fatSize && s < g.fatSize
    ensures CopyAt(g, j, at) == CopyAt(g, k, s) ==> j == k && at == s
    ensures CopyAt(g, 0, at) == g.fatStart + at && CopyAt(g, j, at) < g.dataStart
    ensures j > 0 ==> CopyAt(g, j, at) == CopyAt(g, j - 1, at) + g.fatSize >= g.fatStart + g.fatSize
  {
    assert j > 0 ==> Ahead(g, j) == Ahead(g, j - 1) + g.fatSize;
    hide Ahead();
    AheadAll(g);
    AheadMono(g, j, g.fatNumber);
    AheadMono(g, 0, j);
    AheadMono(g, j, k);
    AheadMono(g, k, j);
  }

  /** Card sector `x` is sector `at` of one of the first `n` FAT copies. */
  predicate IsCopy(g: Geometry, n: nat, at: nat, x: nat) {
    exists j :: 0 <= j < n && x == CopyAt(g, j, at)
  }

  /** `s` stands in sector `at` of the first `n` FAT copies; nothing else changed. */
  ghost predicate Copied(g: Geometry, before: seq<Sector>, after: seq<Sector>, n: nat, at: nat, s: Sector) {
    && |after| == |before|
    && forall x :: 0 <= x < |before| ==> after[x] == if IsCopy(g, n, at, x) then s else before[x]
  }

  ghost predicate InSync(g: Geometry, disk: seq<Sector>) {
    forall j, s :: 0 <= j < g.fatNumber && 0 <= s < g.fatSize && CopyAt(g, j, s) < |disk| ==>
      disk[CopyAt(g, j, s)] == disk[CopyAt(g, 0, s)]
  }

  // ---------------------------------------------------------------- what an allocation does to the FAT

  lemma CopiedNone(g: Geometry, disk: seq<Sector>, at: nat, s: Sector)
    ensures Copied(g, disk, disk, 0, at, s)
  {
  }

  lemma CopiedNext(g: Geometry, before: seq<Sector>, mid: seq<Sector>, n: nat, at: nat, s: Sector)
    requires Copied(g, before, mid, n, at, s) && CopyAt(g, n, at) < |mid|
    ensures Copied(g, before, mid[CopyAt(g, n, at) := s], n + 1, at, s)
  {
    hide CopyAt();
    var after := mid[CopyAt(g, n, at) := s];
    forall x | 0 <= x < |before| ensures after[x] == if IsCopy(g, n + 1, at, x) then s else before[x] {
      assert IsCopy(g, n + 1, at, x) <==> IsCopy(g, n, at, x) || x == CopyAt(g, n, at);
    }
  }

  /** What a finished allocation of `c` leaves: the new FAT sector in every copy. */
  ghost predicate Allocated(g: Geometry, before: seq<Sector>, after: seq<Sector>, c: nat) {
    && Unused(g, before, c)
    && Copied(g, before, after, g.fatNumber, c / g.LinksPerSector(),
              MarkEnd(g.fat32, before[g.fatStart + c / g.LinksPerSector()], c % g.LinksPerSector()))
  }

  /** A sector of the first FAT after an allocation. */
  lemma FirstFat(g: Geometry, before: seq<Sector>, after: seq<Sector>, c: nat, s: nat)
    requires g.Valid() && Allocated(g, before, after, c) && s < g.fatSize && g.fatStart + s < |before|
    ensures var at := c / g.LinksPerSector();
      after[g.fatStart + s] == if s == at then MarkEnd(g.fat32, before[g.fatStart + at], c % g.LinksPerSector())
                               else before[g.fatStart + s]
  {
    var at := c / g.LinksPerSector();
    CopyLaws(g, 0, s, 0, s);
    if IsCopy(g, g.fatNumber, at, g.fatStart + s) {
      var j :| 0 <= j < g.fatNumber && g.fatStart + s == CopyAt(g, j, at);
      CopyLaws(g, j, at, 0, s);
    } else {
      CopyLaws(g, 0, at, 0, at);
      assert CopyAt(g, 0, at) == g.fatStart + at;
    }
  }

  /** The cluster's link becomes end of chain, and no other link changes. */
  lemma AllocatedLinks(g: Geometry, before: seq<Sector>, after: seq<Sector>, c: nat)
    requires g.Valid() && Allocated(g, before, after, c)
    ensures Link(g, before, c) == 0 && Link(g, after, c) == if g.fat32 then 0x0FFF_FFFF else 0xFFFF
    ensures forall d: nat :: d != c ==> Link(g, after, d) == Link(g, before, d)
  {
    hide Allocated(), DecodeLink(), MarkEnd(), Copied();
    var l := g.LinksPerSector();
    SameSize(g, before, after, c);
    FirstFat(g, before, after, c, c / l);
    ZeroLink(g, before, c);
    forall d: nat | d != c ensures Link(g, after, d) == Link(g, before, d) {
      if d / l < g.fatSize && g.fatStart + d / l < |before| {
        FirstFat(g, before, after, c, d / l);
        if d / l == c / l {
          SameQuotient(c, d, l);
        }
      }
    }
  }

  lemma SameSize(g: Geometry, before: seq<Sector>, after: seq<Sector>, c: nat)
    requires Allocated(g, before, after, c)
    ensures |before| == |after| && Unused(g, before, c)
  {
  }

  lemma ZeroLink(g: Geometry, disk: seq<Sector>, c: nat)
    requires Unused(g, disk, c)
    ensures Link(g, disk, c) == 0
  {
  }

  /** A cluster inside the table whose link says it is free is taken for used exactly if the volume is FAT32 and the
      reserved bits of its entry are not all 0. */
  lemma FreeButTaken(g: Geometry, disk: seq<Sector>, c: nat)
    requires c / g.LinksPerSector() < g.fatSize && g.fatStart + c / g.LinksPerSector() < |disk|
    requires Link(g, disk, c) == 0
    ensures var s, i := disk[g.fatStart + c / g.LinksPerSector()], c % g.LinksPerSector();
      !Unused(g, disk, c) <==> g.fat32 && s[4 * i + 3] / 16 != 0
  {
  }

  /** FAT copies that agreed still do. */
  lemma AllocatedInSync(g: Geometry, before: seq<Sector>, after: seq<Sector>, c: nat)
    requires g.Valid() && Allocated(g, before, after, c) && InSync(g, before)
    ensures InSync(g, after)
  {
    hide CopyAt(), MarkEnd(), EntryZero();
    var at := c / g.LinksPerSector();
    forall j, s | 0 <= j < g.fatNumber && 0 <= s < g.fatSize && CopyAt(g, j, s) < |after|
      ensures CopyAt(g, 0, s) < |after| && after[CopyAt(g, j, s)] == after[CopyAt(g, 0, s)]
    {
      FirstCopyFirst(g, j, s);
      if IsCopy(g, g.fatNumber, at, CopyAt(g, j, s)) {
        var k :| 0 <= k < g.fatNumber && CopyAt(g, j, s) == CopyAt(g, k, at);
        CopyLaws(g, j, s, k, at);
        assert IsCopy(g, g.fatNumber, at, CopyAt(g, 0, s));
      } else if IsCopy(g, g.fatNumber, at, CopyAt(g, 0, s)) {
        var k :| 0 <= k < g.fatNumber && CopyAt(g, 0, s) == CopyAt(g, k, at);
        CopyLaws(g, 0, s, k, at);
      }
    }
  }

  lemma FirstCopyFirst(g: Geometry, j: nat, s: nat)
    ensures CopyAt(g, 0, s) <= CopyAt(g, j, s)
  {
    AheadMono(g, 0, j);
  }

  /** The chain's `m` clusters are closed by a mark that is not that of a free entry. */
  ghost predicate Closed(g: Geometry, disk: seq<Sector>, start: nat, m: nat) {
    EndsAt(g, disk, start, m) && Chain(g, disk, start, m) != 0
  }

  /** The end-of-chain mark a file ends in is not a free entry. */
  ghost predicate Terminated(g: Geometry, disk: seq<Sector>, start: nat, size: nat)
    requires g.clusterSize > 0
  {
    Clusters(g, size) > 0 ==> exists m: nat :: Clusters(g, size) <= m && Closed(g, disk, start, m)
  }

  /** A closed chain stays whole, clusters behind the size included. */
  lemma {:induction false} ChainKept(g: Geometry, before: seq<Sector>, after: seq<Sector>, c: nat, start: nat, m: nat,
      k: nat)
    requires g.Valid() && Allocated(g, before, after, c) && Closed(g, before, start, m) && k <= m
    ensures Chain(g, after, start, k) == Chain(g, before, start, k)
    ensures k < m ==> Chain(g, before, start, k) != c
  {
    hide Allocated();
    AllocatedLinks(g, before, after, c);
    if k > 0 {
      ChainKept(g, before, after, c, start, m, k - 1);
    }
    assert k < m ==> Chain(g, before, start, k + 1) == Link(g, before, Chain(g, before, start, k));
    assert k + 1 < m ==> DataCluster(g, before, Chain(g, before, start, k + 1));
  }

  /** Every file stays as it was: same chain, still well formed, same contents. */
  lemma FileKept(g: Geometry, before: seq<Sector>, after: seq<Sector>, c: nat, start: nat, size: nat)
    requires g.Valid() && Allocated(g, before, after, c)
    requires WellFormed(g, before, start, size) && Terminated(g, before, start, size)
    ensures WellFormed(g, after, start, size) && Terminated(g, after, start, size)
    ensures forall k :: 0 <= k < Sectors(size) ==>
                          FileAddress(g, after, start, k) == FileAddress(g, before, start, k)
                          && FileSector(g, after, start, k) == FileSector(g, before, start, k)
  {
    hide Clusters(), Allocated(), ClusterOf(), Address(), Sectors(), Link(), Copied();
    SameSize(g, before, after, c);
    if Clusters(g, size) > 0 {
      var m: nat :| Clusters(g, size) <= m && Closed(g, before, start, m);
      forall k | 0 <= k <= m ensures Chain(g, after, start, k) == Chain(g, before, start, k) {
        ChainKept(g, before, after, c, start, m, k);
      }
      assert Closed(g, after, start, m);
    }
    forall k | 0 <= k < Sectors(size)
      ensures FileAddress(g, after, start, k) == FileAddress(g, before, start, k)
      ensures FileSector(g, after, start, k) == FileSector(g, before, start, k)
    {
      SectorInClusters(g, size, k);
      FileAddressExact(g, before, start, size, k);
      DataKept(g, before, after, c, FileAddress(g, before, start, k));
    }
  }

  lemma DataKept(g: Geometry, before: seq<Sector>, after: seq<Sector>, c: nat, x: nat)
    requires g.Valid() && Allocated(g, before, after, c) && g.dataStart <= x < |before|
    ensures |after| == |before| && after[x] == before[x]
  {
    var at := c / g.LinksPerSector();
    if IsCopy(g, g.fatNumber, at, x) {
      var j :| 0 <= j < g.fatNumber && x == CopyAt(g, j, at);
      CopyLaws(g, j, at, j, at);
      assert false;
    }
  }

  /** The new cluster is a chain of its own, if it is a data cluster at all. */
  lemma NewFile(g: Geometry, before: seq<Sector>, after: seq<Sector>, c: nat, size: nat)
    requires g.Valid() && Allocated(g, before, after, c) && 2 <= c && Clusters(g, size) == 1 && |before| <= TWO32
    ensures WellFormed(g, after, c, size) <==> DataCluster(g, before, c)
    ensures Terminated(g, after, c, size) <==> DataCluster(g, before, c)
  {
    AllocatedLinks(g, before, after, c);
    SameSize(g, before, after, c);
    assert Chain(g, after, c, 0) == c;
    assert Chain(g, after, c, 1) == Link(g, after, c);
    if DataCluster(g, before, c) {
      assert Closed(g, after, c, 1);
    }
  }

  /** The search looks at the whole FAT, also at entries beyond the last cluster: the lowest free entry is that of a
      data cluster exactly if some data cluster is free. */
  lemma LowestInData(g: Geometry, disk: seq<Sector>, c: nat)
    requires g.Valid() && LowestUnused(g, disk, c)
    ensures DataCluster(g, disk, c) <==> exists d: nat :: DataCluster(g, disk, d) && Unused(g, disk, d)
  {
    hide Unused(), DataCluster();
    if d: nat :| DataCluster(g, disk, d) && Unused(g, disk, d) {
      TwoUp(g, disk, d);
      DownClosed(g, disk, c, d);
    }
  }

  lemma DownClosed(g: Geometry, disk: seq<Sector>, c: nat, d: nat)
    requires DataCluster(g, disk, d) && 2 <= c <= d
    ensures DataCluster(g, disk, c)
  {
    MulLe(g.clusterSize, c - 2, d - 2);
    QuotientMonotone(c, d, g.LinksPerSector());
  }

  // ---------------------------------------------------------------- directory entries

  /** Where a directory entry keeps the first cluster, little-endian: low half at 26, high half at 20. */
  function PutCluster(fat32: bool, e: seq<byte>, c: nat): (r: seq<byte>)
    requires |e| == 32 && c < 0x1_0000_0000
    ensures |r| == 32
  {
    var low := e[26 := c % 256][27 := c / 256 % 256];
    if fat32 then low[20 := c / 0x1_0000 % 256][21 := c / 0x100_0000] else low[20 := 0][21 := 0]
  }

  /** The first cluster as opening the file reads it. */
  function FirstCluster(fat32: bool, e: seq<byte>): nat
    requires |e| == 32
  {
    e[26] as int + 256 * e[27] as int + if fat32 then 0x1_0000 * ((e[20] as int + 256 * e[21] as int) % 0x1000) else 0
  }

  /** The bytes of an entry that change, and what stands in them. */
  lemma ClusterPlace(fat32: bool, e: seq<byte>, c: nat)
    requires |e| == 32 && c < 0x1_0000_0000
    ensures var r := PutCluster(fat32, e, c);
      && r[26] as int + 256 * r[27] as int == c % 0x1_0000
      && r[20] as int + 256 * r[21] as int == (if fat32 then c / 0x1_0000 else 0)
      && forall p :: 0 <= p < 32 && !(20 <= p < 22) && !(26 <= p < 28) ==> r[p] == e[p]
  {
    LowHalf(c);
    HighHalf(c);
  }

  /** Cluster numbers an entry can hold. */
  function ClusterLimit(fat32: bool): nat {
    if fat32 then 0x1000_0000 else 0x1_0000
  }

  /** Opening the new entry finds the cluster that was allocated, if an entry can hold it. */
  lemma ClusterRoundTrip(fat32: bool, e: seq<byte>, c: nat)
    requires |e| == 32
    ensures FirstCluster(fat32, PutCluster(fat32, e, c % TWO32)) == c <==> c < ClusterLimit(fat32)
  {
    hide FirstCluster, PutCluster;
    FirstClusterBound(fat32, PutCluster(fat32, e, c % TWO32));
    if c < ClusterLimit(fat32) {
      ClusterFits(fat32, e, c);
    }
  }

  lemma FirstClusterBound(fat32: bool, e: seq<byte>)
    requires |e| == 32
    ensures FirstCluster(fat32, e) < ClusterLimit(fat32)
  {
    assert e[26] as int + 256 * e[27] as int < 0x1_0000;
    assert (e[20] as int + 256 * e[21] as int) % 0x1000 <= 0xFFF;
  }

  lemma ClusterFits(fat32: bool, e: seq<byte>, c: nat)
    requires |e| == 32 && c < ClusterLimit(fat32)
    ensures FirstCluster(fat32, PutCluster(fat32, e, c)) == c
  {
    var high := c / 0x1_0000;
    var r := PutCluster(fat32, e, c);
    LowHalf(c);
    assert r[26] as int + 256 * r[27] as int == c % 0x1_0000;
    if fat32 {
      HighHalf(c);
      assert r[20] as int + 256 * r[21] as int == high;
    }
  }

  /** The bytes of both halves of a cluster number. */
  lemma LowHalf(c: nat)
    ensures c % 256 + 256 * (c / 256 % 256) == c % 0x1_0000
  {
    var q, r := c / 0x1_0000, c % 0x1_0000;
    assert c == 256 * (256 * q) + r;
    QuotientUnique(c, 256, 256 * q + r / 256, r % 256);
    QuotientUnique(c / 256, 256, q, r / 256);
  }

  lemma HighHalf(c: nat)
    requires c < TWO32
    ensures c / 0x1_0000 % 256 + 256 * (c / 0x100_0000) == c / 0x1_0000
  {
    var q, r := c / 0x100_0000, c % 0x100_0000;
    assert c == 0x1_0000 * (256 * q + r / 0x1_0000) + r % 0x1_0000;
    QuotientUnique(c, 0x1_0000, 256 * q + r / 0x1_0000, r % 0x1_0000);
    QuotientUnique(c / 0x1_0000, 256, q, r / 0x1_0000);
  }

  /** Slot `slot` of a directory sector replaced. */
  function PutEntry(s: Sector, slot: nat, e: seq<byte>): (t: Sector)
    requires slot < 16 && |e| == 32
  {
    s[..32 * slot] + e + s[32 * slot + 32..]
  }

  /** Slot `slot` of a directory sector. */
  function EntryOf(s: Sector, slot: nat): (e: seq<byte>)
    requires slot < 16
    ensures |e| == 32
  {
    s[32 * slot..32 * slot + 32]
  }

  lemma EntryPut(s: Sector, slot: nat, e: seq<byte>)
    requires slot < 16 && |e| == 32
    ensures EntryOf(PutEntry(s, slot, e), slot) == e
    ensures forall j :: 0 <= j < 16 && j != slot ==> EntryOf(PutEntry(s, slot, e), j) == EntryOf(s, j)
  {
    var t := PutEntry(s, slot, e);
    forall j | 0 <= j < 16 && j != slot ensures EntryOf(t, j) == EntryOf(s, j) {
      forall i | 0 <= i < 32 ensures EntryOf(t, j)[i] == EntryOf(s, j)[i] {
        assert EntryOf(t, j)[i] == t[32 * j + i] && EntryOf(s, j)[i] == s[32 * j + i];
      }
    }
  }

  /** A slot that was never used: its name begins with a zero. */
  predicate EmptySlot(s: Sector, slot: nat)
    requires slot < 16
  {
    s[32 * slot] == 0
  }

  /** Slots are 32 bytes, and a slot was never used if the first of them is 0. */
  lemma SlotBytes(s: Sector, slot: nat, e: seq<byte>)
    requires slot < 16 && |e| == 32
    ensures EmptySlot(s, slot) <==> EntryOf(s, slot)[0] == 0
    ensures forall p :: 0 <= p < 512 ==>
              PutEntry(s, slot, e)[p] == if 32 * slot <= p < 32 * slot + 32 then e[p - 32 * slot] else s[p]
  {
  }

  /** Entry `n` of a directory that lies on these sectors is the first that was never used. */
  ghost predicate FirstEmpty(card: seq<Sector>, directory: seq<u32>, n: nat) {
    && n < 16 * |directory| && EmptySlot(SectorAt(card, directory[n / 16]), n % 16)
    && forall m :: 0 <= m < n ==> !EmptySlot(SectorAt(card, directory[m / 16]), m % 16)
  }

  // ---------------------------------------------------------------- files and the directory write

  /** Card sector `x` holds part of the file. */
  ghost predicate Owns(g: Geometry, disk: seq<Sector>, start: nat, size: nat, x: nat)
    requires g.clusterSize > 0
  {
    exists k :: 0 <= k < Sectors(size) && FileAddress(g, disk, start, k) == x
  }

  /** A file with the same chain and the same contents. */
  ghost predicate Survives(g: Geometry, before: seq<Sector>, after: seq<Sector>, start: nat, size: nat)
    requires g.Valid()
  {
    && WellFormed(g, after, start, size) && Terminated(g, after, start, size)
    && forall k :: 0 <= k < Sectors(size) ==>
         FileAddress(g, after, start, k) == FileAddress(g, before, start, k)
         && FileSector(g, after, start, k) == FileSector(g, before, start, k)
  }

  /** Every file that was on the volume and does not own `x` survives. */
  ghost predicate AllSurvive(g: Geometry, before: seq<Sector>, after: seq<Sector>, x: nat)
    requires g.Valid()
  {
    forall start, size ::
      WellFormed(g, before, start, size) && Terminated(g, before, start, size) && !Owns(g, before, start, size, x) ==>
      Survives(g, before, after, start, size)
  }

  lemma SurviveBoth(g: Geometry, before: seq<Sector>, fat: seq<Sector>, after: seq<Sector>, c: nat, x: nat)
    requires g.Valid() && Allocated(g, before, fat, c) && SameExcept(fat, after, x) && OutsideFats(g, x)
    ensures AllSurvive(g, before, after, x)
  {
    hide Allocated, WellFormed, Terminated, FileAddress, FileSector, SameExcept, OutsideFats;
    forall start, size | WellFormed(g, before, start, size) && Terminated(g, before, start, size)
                          && !Owns(g, before, start, size, x)
      ensures Survives(g, before, after, start, size)
    {
      FileKept(g, before, fat, c, start, size);
      WriteElsewhere(g, fat, after, start, size, x);
    }
  }

  lemma WriteElsewhere(g: Geometry, fat: seq<Sector>, after: seq<Sector>, start: nat, size: nat, x: nat)
    requires g.Valid() && SameExcept(fat, after, x) && OutsideFats(g, x)
    requires WellFormed(g, fat, start, size) && Terminated(g, fat, start, size) && !Owns(g, fat, start, size, x)
    ensures Survives(g, fat, after, start, size)
  {
    hide Clusters, ClusterOf, Address, Sectors, Link, DataCluster;
    AheadMono(g, 0, g.fatNumber);
    assert SameFat(g, fat, after);
    WellFormedFrame(g, fat, after, start, size);
    forall k: nat ensures Chain(g, after, start, k) == Chain(g, fat, start, k) {
      ChainFrame(g, fat, after, start, k);
    }
    if Clusters(g, size) > 0 {
      var m: nat :| Clusters(g, size) <= m && Closed(g, fat, start, m);
      SameCount(g, fat, after, start, m);
      assert Closed(g, after, start, m);
    }
    forall k | 0 <= k < Sectors(size)
      ensures FileAddress(g, after, start, k) == FileAddress(g, fat, start, k)
      ensures FileSector(g, after, start, k) == FileSector(g, fat, start, k)
    {
      FileAddressExact(g, fat, start, size, k);
    }
  }

  /** What a created file means for the FAT of the final card: its cluster's link is end of chain and every other link
      is as before, FAT copies that agreed still do, the cluster belonged to no file, and a file of one cluster there
      is well formed if and only if it is a data cluster. */
  ghost predicate OneMoreFile(g: Geometry, before: seq<Sector>, after: seq<Sector>, c: nat)
    requires g.Valid()
  {
    && |after| == |before| && Link(g, before, c) == 0 && Link(g, after, c) == (if g.fat32 then 0x0FFF_FFFF else 0xFFFF)
    && (forall d: nat :: d != c ==> Link(g, after, d) == Link(g, before, d))
    && (InSync(g, before) ==> InSync(g, after))
    && (forall start: nat, m: nat, k: nat :: Closed(g, before, start, m) && k < m ==> Chain(g, before, start, k) != c)
    && (forall size: nat :: |before| <= TWO32 && Clusters(g, size) == 1 ==>
          (WellFormed(g, after, c, size) <==> DataCluster(g, before, c)))
  }

  lemma CreatedLaw(g: Geometry, before: seq<Sector>, fat: seq<Sector>, after: seq<Sector>, c: nat, x: nat)
    requires g.Valid() && Allocated(g, before, fat, c) && SameExcept(fat, after, x) && OutsideFats(g, x) && 2 <= c
    ensures OneMoreFile(g, before, after, c)
  {
    hide Allocated, InSync, Clusters, WellFormed, Link, SameExcept, OutsideFats;
    SameSize(g, before, fat, c);
    SameElsewhere(g, fat, after, x);
    AllocatedLinks(g, before, fat, c);
    forall d: nat ensures Link(g, after, d) == Link(g, fat, d) {
      LinkFrame(g, fat, after, d);
    }
    if InSync(g, before) {
      AllocatedInSync(g, before, fat, c);
      SyncKept(g, fat, after, x);
    }
    forall start: nat, m: nat, k: nat | Closed(g, before, start, m) && k < m
      ensures Chain(g, before, start, k) != c
    {
      ChainKept(g, before, fat, c, start, m, k);
    }
    forall size: nat | |before| <= TWO32 && Clusters(g, size) == 1
      ensures WellFormed(g, after, c, size) <==> DataCluster(g, before, c)
    {
      NewFile(g, before, fat, c, size);
      WellFormedBoth(g, fat, after, c, size);
    }
  }

  lemma SameElsewhere(g: Geometry, fat: seq<Sector>, after: seq<Sector>, x: nat)
    requires g.Valid() && SameExcept(fat, after, x) && OutsideFats(g, x)
    ensures |after| == |fat| && SameFat(g, fat, after)
  {
    AheadMono(g, 0, g.fatNumber);
  }

  lemma WellFormedBoth(g: Geometry, fat: seq<Sector>, after: seq<Sector>, start: nat, size: nat)
    requires g.Valid() && SameFat(g, fat, after) && |fat| == |after|
    ensures WellFormed(g, fat, start, size) <==> WellFormed(g, after, start, size)
  {
    hide WellFormed;
    if WellFormed(g, fat, start, size) {
      WellFormedFrame(g, fat, after, start, size);
    }
    if WellFormed(g, after, start, size) {
      WellFormedFrame(g, after, fat, start, size);
    }
  }

  /** A write outside the FATs leaves copies that agreed in agreement. */
  lemma SyncKept(g: Geometry, fat: seq<Sector>, after: seq<Sector>, x: nat)
    requires g.Valid() && SameExcept(fat, after, x) && OutsideFats(g, x) && InSync(g, fat)
    ensures InSync(g, after)
  {
    hide CopyAt, Ahead;
    forall j, s | 0 <= j < g.fatNumber && 0 <= s < g.fatSize && CopyAt(g, j, s) < |after|
      ensures CopyAt(g, 0, s) < |after| && after[CopyAt(g, j, s)] == after[CopyAt(g, 0, s)]
    {
      FirstCopyFirst(g, j, s);
      CopyApart(g, j, s, x);
      CopyApart(g, 0, s, x);
    }
  }

  lemma CopyApart(g: Geometry, j: nat, s: nat, x: nat)
    requires g.Valid() && OutsideFats(g, x) && j < g.fatNumber && s < g.fatSize
    ensures CopyAt(g, j, s) != x
  {
    hide Ahead;
    AheadMono(g, j, g.fatNumber);
  }

  lemma SameCount(g: Geometry, fat: seq<Sector>, after: seq<Sector>, start: nat, m: nat)
    requires |fat| == |after| && Closed(g, fat, start, m)
    requires forall k: nat :: Chain(g, after, start, k) == Chain(g, fat, start, k)
    ensures EndsAt(g, after, start, m)
  {
  }

  // ---------------------------------------------------------------- the search and the writes

  /** How creating a file ends: where it stopped, if it did. A full FAT is not told apart from success by the source. */
  datatype Result =
    | Created(cluster: nat)
    | Full
    | ReadFailed
    | FatFailed(cluster: nat)
    | CopyFailed(cluster: nat, copy: nat)
    | EntryFailed(cluster: nat)
    | NoSlot

  /** Walks the FAT through the cache to the lowest free entry. */
  method FindUnused(v: Volume) returns (ok: bool, found: bool, at: nat, i: nat)
    requires v.Valid() && v.g.fatStart + v.g.fatSize <= TWO32
    modifies v`fatBuffer, v`fatIndex
    ensures v.Valid()
    ensures found ==>
              ok && i < v.g.LinksPerSector() && LowestUnused(v.g, v.card.sectors, ClusterAt(v.g, at, i))
              && v.fatIndex == at
    ensures ok && !found ==> forall c :: 2 <= c ==> !Unused(v.g, v.card.sectors, c)
    ensures v.card.healthy && v.g.fatStart + v.g.fatSize <= |v.card.sectors| ==> ok
  {
    hide EntryZero(), Unused(), Before();
    ok, found, at, i := true, false, 0, 2;
    FirstBefore(v.g);
    while at < v.g.fatSize
      invariant v.Valid() && !found && i < v.g.LinksPerSector() && (at == 0 ==> i >= 2)
      invariant forall c: nat :: 2 <= c && Before(v.g, c, at, i) ==> !Unused(v.g, v.card.sectors, c)
      decreases v.g.fatSize - at
    {
      if at != v.fatIndex {
        var data;
        ok, data := v.card.Read(v.g.fatStart + at);
        if !ok {
          return;
        }
        v.fatBuffer, v.fatIndex := data, at;
      }
      while i < v.g.LinksPerSector()
        modifies {}
        invariant i <= v.g.LinksPerSector() && (at == 0 ==> i >= 2)
        invariant forall c: nat :: 2 <= c && Before(v.g, c, at, i) ==> !Unused(v.g, v.card.sectors, c)
      {
        UnusedEntry(v.g, v.card.sectors, at, i);
        if EntryZero(v.g.fat32, v.fatBuffer, i) {
          found := true;
          Lowest(v.g, v.card.sectors, at, i);
          return;
        }
        NextBefore(v.g, at, i);
        i := i + 1;
      }
      WholeBefore(v.g, at);
      i := 0;
      at := at + 1;
    }
    NoneLeft(v.g, v.card.sectors, at, i);
  }

  lemma FirstBefore(g: Geometry)
    ensures forall c: nat :: Before(g, c, 0, 2) ==> c < 2
  {
  }

  /** One entry more is behind the search. */
  lemma NextBefore(g: Geometry, at: nat, i: nat)
    requires i < g.LinksPerSector()
    ensures forall c: nat :: Before(g, c, at, i + 1) ==> Before(g, c, at, i) || c == ClusterAt(g, at, i)
  {
    forall c: nat | Before(g, c, at, i + 1) ensures Before(g, c, at, i) || c == ClusterAt(g, at, i) {
      if !Before(g, c, at, i) {
        SameQuotient(c, ClusterAt(g, at, i), g.LinksPerSector());
      }
    }
  }

  lemma WholeBefore(g: Geometry, at: nat)
    ensures forall c: nat :: Before(g, c, at + 1, 0) ==> Before(g, c, at, g.LinksPerSector())
  {
    hide Geometry.LinksPerSector();
  }

  lemma UnusedEntry(g: Geometry, disk: seq<Sector>, at: nat, i: nat)
    requires i < g.LinksPerSector() && at < g.fatSize && g.fatStart + at < |disk|
    ensures Unused(g, disk, ClusterAt(g, at, i)) <==> EntryZero(g.fat32, disk[g.fatStart + at], i)
  {
  }

  lemma Lowest(g: Geometry, disk: seq<Sector>, at: nat, i: nat)
    requires i < g.LinksPerSector() && (at == 0 ==> i >= 2) && Unused(g, disk, ClusterAt(g, at, i))
    requires forall c: nat :: 2 <= c && Before(g, c, at, i) ==> !Unused(g, disk, c)
    ensures LowestUnused(g, disk, ClusterAt(g, at, i))
  {
    hide Unused();
    forall c | 2 <= c < ClusterAt(g, at, i) ensures !Unused(g, disk, c) {
      BeforeOrder(g, c, at, i);
    }
    assert ClusterAt(g, at, i) >= 2;
  }

  lemma NoneLeft(g: Geometry, disk: seq<Sector>, at: nat, i: nat)
    requires at >= g.fatSize && forall c: nat :: 2 <= c && Before(g, c, at, i) ==> !Unused(g, disk, c)
    ensures forall c :: 2 <= c ==> !Unused(g, disk, c)
  {
    forall c: nat | 2 <= c ensures !Unused(g, disk, c) {
      assert !Before(g, c, at, i) ==> c / g.LinksPerSector() >= g.fatSize;
    }
  }

  /** No FAT copy lies there. */
  predicate OutsideFats(g: Geometry, x: nat) {
    x < g.fatStart || x >= g.fatStart + Ahead(g, g.fatNumber)
  }

  lemma OutsideExactly(g: Geometry, x: nat)
    requires g.Valid()
    ensures OutsideFats(g, x) <==> forall j, at :: 0 <= j < g.fatNumber && 0 <= at < g.fatSize ==> CopyAt(g, j, at) != x
  {
    if OutsideFats(g, x) {
      forall j, at | 0 <= j < g.fatNumber && 0 <= at < g.fatSize ensures CopyAt(g, j, at) != x {
        CopyApart(g, j, at, x);
      }
    } else {
      var d := x - g.fatStart;
      var j, at := d / g.fatSize, d % g.fatSize;
      assert d == g.fatSize * j + at;
      if j >= g.fatNumber {
        MulLe(g.fatSize, g.fatNumber, j);
      }
      assert CopyAt(g, j, at) == x;
    }
  }

  /** The FAT sector an allocation of `c` writes. */
  function NewFat(g: Geometry, disk: seq<Sector>, c: nat): Sector {
    var at := c / g.LinksPerSector();
    MarkEnd(g.fat32, SectorAt(disk, g.fatStart + at), c % g.LinksPerSector())
  }

  predicate OnCard(card: seq<Sector>, directory: seq<u32>) {
    forall i :: 0 <= i < |directory| ==> directory[i] < |card|
  }

  /** Looks through a directory for the first slot that was never used. */
  method FindSlot(v: Volume, directory: seq<u32>) returns (ok: bool, found: bool, n: nat, buffer: Sector)
    ensures found ==> ok && FirstEmpty(v.card.sectors, directory, n) && directory[n / 16] < |v.card.sectors|
                      && buffer == v.card.sectors[directory[n / 16]]
    ensures ok && !found ==> forall m :: 0 <= m < 16 * |directory| ==>
              !EmptySlot(SectorAt(v.card.sectors, directory[m / 16]), m % 16)
    ensures v.card.healthy && OnCard(v.card.sectors, directory) ==> ok
  {
    ok, found, n, buffer := true, false, 0, Blank();
    while n < 16 * |directory|
      invariant n <= 16 * |directory|
      invariant n % 16 != 0 ==> directory[n / 16] < |v.card.sectors| && buffer == v.card.sectors[directory[n / 16]]
      invariant forall m :: 0 <= m < n ==> !EmptySlot(SectorAt(v.card.sectors, directory[m / 16]), m % 16)
    {
      if n % 16 == 0 {
        var data;
        ok, data := v.card.Read(directory[n / 16]);
        if !ok {
          return;
        }
        buffer := data;
      }
      if EmptySlot(buffer, n % 16) {
        found := true;
        return;
      }
      n := n + 1;
    }
  }

  /** FileCreate in a directory that lies on the given sectors. */
  method FileCreate(v: Volume, file: FileHandle, directory: seq<u32>, entry: seq<byte>)
      returns (r: Result, ghost n: nat)
    requires v.Valid() && v.g.dataStart <= TWO32 && |entry| == 32
    requires forall i :: 0 <= i < |directory| ==> OutsideFats(v.g, directory[i])
    modifies v`fatBuffer, v`fatIndex, v.card`sectors, file`startCluster, file`cluster, file`sector
    ensures r.Created? || r.EntryFailed? ==>
              && FirstEmpty(old(v.card.sectors), directory, n) && LowestUnused(v.g, old(v.card.sectors), r.cluster)
              && AllSurvive(v.g, old(v.card.sectors), v.card.sectors, directory[n / 16])
              && OneMoreFile(v.g, old(v.card.sectors), v.card.sectors, r.cluster)
    ensures r.Created? || r.EntryFailed? ==>
              exists fat ::
                Allocated(v.g, old(v.card.sectors), fat, r.cluster)
                && SameExcept(fat, v.card.sectors, directory[n / 16])
    ensures r.Full? ==> forall c :: 2 <= c ==> !Unused(v.g, v.card.sectors, c)
    ensures r.Created? ==>
              && directory[n / 16] < |v.card.sectors| && file.startCluster == file.cluster == r.cluster
              && file.sector == 0
              && v.card.sectors[directory[n / 16]]
                 == PutEntry(SectorAt(old(v.card.sectors), directory[n / 16]), n % 16,
                   PutCluster(v.g.fat32, entry, r.cluster % TWO32))
              && (FirstCluster(v.g.fat32, EntryOf(v.card.sectors[directory[n / 16]], n % 16)) == r.cluster <==>
                    r.cluster < ClusterLimit(v.g.fat32))
    ensures r.CopyFailed? || r.FatFailed? ==> LowestUnused(v.g, old(v.card.sectors), r.cluster)
    ensures r.CopyFailed? ==>
              && 1 <= r.copy < v.g.fatNumber
              && var at := r.cluster / v.g.LinksPerSector();
              exists fat ::
                Copied(v.g, old(v.card.sectors), fat, r.copy, at, NewFat(v.g, old(v.card.sectors), r.cluster))
                && SameExcept(fat, v.card.sectors, CopyAt(v.g, r.copy, at))
    ensures r.FatFailed? ==>
              && SameExcept(old(v.card.sectors), v.card.sectors, v.g.fatStart + r.cluster / v.g.LinksPerSector())
              && (v.Valid() <==> SectorAt(v.card.sectors, v.g.fatStart + r.cluster / v.g.LinksPerSector())
                                 == NewFat(v.g, old(v.card.sectors), r.cluster))
    ensures r.NoSlot? ==>
              forall m :: 0 <= m < 16 * |directory| ==>
                !EmptySlot(SectorAt(old(v.card.sectors), directory[m / 16]), m % 16)
    ensures r.NoSlot? || r.ReadFailed? || r.Full? ==> v.card.sectors == old(v.card.sectors)
    ensures !r.FatFailed? ==> v.Valid()
    ensures v.card.healthy && v.g.dataStart <= |v.card.sectors| && OnCard(v.card.sectors, directory) ==>
              r.Created? || r.Full? || r.NoSlot?
  {
    hide Allocated(), LowestUnused(), Copied(), Unused(), CopyAt(), OutsideFats(), PutEntry(), PutCluster(), NewFat(),
         AllSurvive(), OneMoreFile(), FirstCluster(), EntryOf(), EmptySlot();
    var ok, found, at, buffer := FindSlot(v, directory);
    n := at;
    if !ok {
      return ReadFailed, n;
    }
    if !found {
      return NoSlot, n;
    }
    r := CreateAt(v, file, directory[at / 16], at % 16, buffer, entry);
  }

  /** FileCreate once an empty slot of a directory sector has been found: allocates a cluster and writes the entry. */
  method CreateAt(v: Volume, file: FileHandle, entrySector: u32, slot: nat, buffer: Sector, entry: seq<byte>)
      returns (r: Result)
    requires v.Valid() && v.g.dataStart <= TWO32 && slot < 16 && |entry| == 32 && OutsideFats(v.g, entrySector)
    modifies v`fatBuffer, v`fatIndex, v.card`sectors, file`startCluster, file`cluster, file`sector
    ensures r.Created? || r.EntryFailed? || r.CopyFailed? || r.FatFailed? ==>
              LowestUnused(v.g, old(v.card.sectors), r.cluster)
    ensures r.Created? ==>
              exists fat ::
                Allocated(v.g, old(v.card.sectors), fat, r.cluster) && entrySector < |fat|
                && v.card.sectors
                   == fat[entrySector := PutEntry(buffer, slot, PutCluster(v.g.fat32, entry, r.cluster % TWO32))]
    ensures r.Created? ==> file.startCluster == file.cluster == r.cluster && file.sector == 0
    ensures r.CopyFailed? ==>
              && 1 <= r.copy < v.g.fatNumber
              && var at := r.cluster / v.g.LinksPerSector();
              exists fat ::
                Copied(v.g, old(v.card.sectors), fat, r.copy, at, NewFat(v.g, old(v.card.sectors), r.cluster))
                            && SameExcept(fat, v.card.sectors, CopyAt(v.g, r.copy, at))
    ensures r.FatFailed? ==>
              && SameExcept(old(v.card.sectors), v.card.sectors, v.g.fatStart + r.cluster / v.g.LinksPerSector())
              && (v.Valid() <==> SectorAt(v.card.sectors, v.g.fatStart + r.cluster / v.g.LinksPerSector())
                                 == NewFat(v.g, old(v.card.sectors), r.cluster))
    ensures r.Created? || r.EntryFailed? ==>
              && AllSurvive(v.g, old(v.card.sectors), v.card.sectors, entrySector)
              && OneMoreFile(v.g, old(v.card.sectors), v.card.sectors, r.cluster)
    ensures r.Created? || r.EntryFailed? ==>
              exists fat ::
                Allocated(v.g, old(v.card.sectors), fat, r.cluster) && SameExcept(fat, v.card.sectors, entrySector)
    ensures r.Created? ==>
              entrySector < |v.card.sectors|
              && (FirstCluster(v.g.fat32, EntryOf(v.card.sectors[entrySector], slot)) == r.cluster <==>
                    r.cluster < ClusterLimit(v.g.fat32))
    ensures !r.NoSlot? && (r.ReadFailed? || r.Full? ==> v.card.sectors == old(v.card.sectors))
    ensures r.Full? ==> forall c :: 2 <= c ==> !Unused(v.g, v.card.sectors, c)
    ensures !r.FatFailed? ==> v.Valid()
    ensures v.card.healthy && v.g.dataStart <= |v.card.sectors| && entrySector < |v.card.sectors| ==>
              r.Created? || r.Full?
  {
    hide Allocated(), LowestUnused(), Copied(), Unused(), CopyAt(), OutsideFats(), PutEntry(), PutCluster(), NewFat(),
         AllSurvive(), OneMoreFile(), FirstCluster(), EntryOf();
    r := Allocate(v);
    if !r.Created? {
      return;
    }
    ghost var fat := v.card.sectors;
    var e := PutCluster(v.g.fat32, entry, r.cluster % TWO32);
    EntryPut(buffer, slot, e);
    ClusterRoundTrip(v.g.fat32, entry, r.cluster);
    var ok := v.card.Write(entrySector, PutEntry(buffer, slot, e));
    StillValid(v, fat, entrySector);
    SurviveBoth(v.g, old(v.card.sectors), fat, v.card.sectors, r.cluster, entrySector);
    LowestIsUnused(v.g, old(v.card.sectors), r.cluster);
    CreatedLaw(v.g, old(v.card.sectors), fat, v.card.sectors, r.cluster, entrySector);
    if !ok {
      return EntryFailed(r.cluster);
    }
    file.startCluster, file.cluster, file.sector := r.cluster, r.cluster, 0;
  }

  /** Takes the lowest free cluster, in the first FAT and then in the copies. */
  method Allocate(v: Volume) returns (r: Result)
    requires v.Valid() && v.g.dataStart <= TWO32
    modifies v`fatBuffer, v`fatIndex, v.card`sectors
    ensures !r.EntryFailed? && !r.NoSlot?
    ensures r.Created? || r.CopyFailed? || r.FatFailed? ==> LowestUnused(v.g, old(v.card.sectors), r.cluster)
    ensures r.Created? ==>
              Allocated(v.g, old(v.card.sectors), v.card.sectors, r.cluster) && v.g.Valid()
              && 0 <= v.fatIndex < v.g.fatSize && v.g.fatStart + v.fatIndex < |v.card.sectors|
              && v.fatBuffer == v.card.sectors[v.g.fatStart + v.fatIndex]
    ensures r.CopyFailed? ==>
              && 1 <= r.copy < v.g.fatNumber
              && var at := r.cluster / v.g.LinksPerSector();
              exists fat ::
                Copied(v.g, old(v.card.sectors), fat, r.copy, at, NewFat(v.g, old(v.card.sectors), r.cluster))
                            && SameExcept(fat, v.card.sectors, CopyAt(v.g, r.copy, at))
    ensures r.FatFailed? ==>
              && SameExcept(old(v.card.sectors), v.card.sectors, v.g.fatStart + r.cluster / v.g.LinksPerSector())
              && (v.Valid() <==> SectorAt(v.card.sectors, v.g.fatStart + r.cluster / v.g.LinksPerSector())
                                 == NewFat(v.g, old(v.card.sectors), r.cluster))
    ensures r.ReadFailed? || r.Full? ==> v.card.sectors == old(v.card.sectors)
    ensures r.Full? ==> forall c :: 2 <= c ==> !Unused(v.g, v.card.sectors, c)
    ensures !r.FatFailed? ==> v.Valid()
    ensures |v.card.sectors| == |old(v.card.sectors)|
    ensures v.card.healthy && v.g.dataStart <= |v.card.sectors| ==> r.Created? || r.Full?
  {
    hide Allocated(), LowestUnused(), Copied(), Unused(), MarkEnd(), CopyAt(), EntryZero();
    var ok, found, at, i := FindUnused(v);
    if !ok {
      return ReadFailed;
    }
    if !found {
      return Full;
    }
    ghost var before := v.card.sectors;
    var cluster := ClusterAt(v.g, at, i);
    LowestIsUnused(v.g, before, cluster);
    var s := MarkEnd(v.g.fat32, v.fatBuffer, i);
    ok := StoreFat(v, at, i, s);
    if !ok {
      return FatFailed(cluster);
    }
    var copy;
    ok, copy := StoreCopies(v, at, s, before);
    if !ok {
      return CopyFailed(cluster, copy);
    }
    NowAllocated(v.g, before, v.card.sectors, at, i, s);
    return Created(cluster);
  }

  lemma LowestIsUnused(g: Geometry, disk: seq<Sector>, c: nat)
    requires LowestUnused(g, disk, c)
    ensures Unused(g, disk, c) && c >= 2
  {
  }

  lemma NowAllocated(g: Geometry, before: seq<Sector>, after: seq<Sector>, at: nat, i: nat, s: Sector)
    requires i < g.LinksPerSector() && Unused(g, before, ClusterAt(g, at, i)) && at < g.fatSize
    requires g.fatStart + at < |before|
    requires s == MarkEnd(g.fat32, before[g.fatStart + at], i) && Copied(g, before, after, g.fatNumber, at, s)
    ensures Allocated(g, before, after, ClusterAt(g, at, i))
  {
  }

  /** The FAT lies outside a directory sector. */
  lemma StillValid(v: Volume, fat: seq<Sector>, x: nat)
    requires v.g.Valid() && OutsideFats(v.g, x) && SameExcept(fat, v.card.sectors, x)
    requires 0 <= v.fatIndex < v.g.fatSize && v.g.fatStart + v.fatIndex < |fat|
    requires v.fatBuffer == fat[v.g.fatStart + v.fatIndex]
    ensures v.Valid()
  {
    AheadMono(v.g, 0, v.g.fatNumber);
  }

  /** Marks the entry in the cache and writes the sector. A write that fails without storing it leaves the cache ahead
      of the card. */
  method StoreFat(v: Volume, at: nat, i: nat, s: Sector) returns (ok: bool)
    requires v.Valid() && v.fatIndex == at && i < v.g.LinksPerSector() && s == MarkEnd(v.g.fat32, v.fatBuffer, i)
    requires v.g.dataStart <= TWO32
    modifies v`fatBuffer, v.card`sectors
    ensures v.fatBuffer == s && at < v.g.fatSize && v.g.fatStart + at < |old(v.card.sectors)|
    ensures ok ==> v.Valid() && Copied(v.g, old(v.card.sectors), v.card.sectors, 1, at, s)
    ensures SameExcept(old(v.card.sectors), v.card.sectors, v.g.fatStart + at)
    ensures s == MarkEnd(v.g.fat32, old(v.card.sectors)[v.g.fatStart + at], i)
    ensures v.Valid() <==> v.card.sectors[v.g.fatStart + at] == s
    ensures v.card.healthy ==> ok
  {
    hide MarkEnd(), Copied();
    ghost var before := v.card.sectors;
    v.fatBuffer := s;
    CopiedNone(v.g, before, at, s);
    AheadMono(v.g, 0, 0);
    ok := v.card.Write(v.g.fatStart + at, v.fatBuffer);
    if ok {
      CopiedNext(v.g, before, before, 0, at, s);
    }
  }

  /** Writes the other FAT copies. */
  method StoreCopies(v: Volume, at: nat, s: Sector, ghost before: seq<Sector>) returns (ok: bool, copy: nat)
    requires v.Valid() && v.fatIndex == at < v.g.fatSize && v.fatBuffer == s && v.g.dataStart <= TWO32
    requires Copied(v.g, before, v.card.sectors, 1, at, s)
    modifies v.card`sectors
    ensures v.Valid() && |v.card.sectors| == |before|
    ensures ok ==> Copied(v.g, before, v.card.sectors, v.g.fatNumber, at, s)
    ensures !ok ==> 1 <= copy < v.g.fatNumber
                    && exists fat ::
                      Copied(v.g, before, fat, copy, at, s) && SameExcept(fat, v.card.sectors, CopyAt(v.g, copy, at))
    ensures v.card.healthy && v.g.dataStart <= |before| ==> ok
  {
    hide CopyAt(), Copied();
    ok, copy := true, 1;
    CopiedSize(v.g, before, v.card.sectors, 1, at, s);
    while copy < v.g.fatNumber
      invariant v.Valid() && 1 <= copy <= v.g.fatNumber && |v.card.sectors| == |before|
      invariant Copied(v.g, before, v.card.sectors, copy, at, s)
    {
      CopyLaws(v.g, copy, at, 0, at);
      ghost var mid := v.card.sectors;
      ok := v.card.Write(CopyAt(v.g, copy, at), v.fatBuffer);
      if !ok {
        return;
      }
      CopiedNext(v.g, before, mid, copy, at, s);
      copy := copy + 1;
    }
  }

  lemma CopiedSize(g: Geometry, before: seq<Sector>, after: seq<Sector>, n: nat, at: nat, s: Sector)
    requires Copied(g, before, after, n, at, s)
    ensures |after| == |before|
  {
  }

  /** What the cache then shows is not what the card holds: the entry is taken in one and free in the other. */
  lemma StaleEntry(fat32: bool, s: Sector, i: nat)
    requires i < (if fat32 then 128 else 256) && EntryZero(fat32, s, i)
    ensures MarkEnd(fat32, s, i) != s
  {
    assert DecodeLink(fat32, s, i) == 0;
  }
}
