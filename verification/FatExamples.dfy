/** Volumes of a few sectors on which the file layer does not do what its callers expect. */
module FatExamples {
  import opened Storage
  import opened FatChain
  import opened FatFile
  import opened FatCreate

  /** A FAT16 volume: one FAT sector, then clusters of one sector each, numbered from 2. */
  const Tiny: Geometry := Geometry(false, 0, 1, 1, 1, 1)

  /** A FAT sector with two links in it. */
  function Links(two: nat, three: nat): (s: Sector)
    requires two < 0x1_0000 && three < 0x1_0000
    ensures DecodeLink(false, s, 2) == two && DecodeLink(false, s, 3) == three
  {
    Blank()[4 := two % 256][5 := two / 256][6 := three % 256][7 := three / 256]
  }

  function Filled(b: byte): (s: Sector)
    ensures s[0] == b
  {
    Blank()[0 := b]
  }

  /** A file of one cluster that it fills. */
  const OneCluster: seq<Sector> := [Links(0xFFFF, 0), Filled(1)]

  /** A file of two clusters. */
  const TwoClusters: seq<Sector> := [Links(3, 0xFFFF), Filled(1), Filled(2)]

  lemma TinyFacts()
    ensures Tiny.Valid() && forall k: nat :: ClusterOf(Tiny, k) == k && ClusterOffset(Tiny, k) == 0
    ensures Clusters(Tiny, 512) == 1 && Clusters(Tiny, 1024) == 2 && Sectors(512) == 1 && Sectors(1024) == 2
  {
    assert Tiny.clusterSize in {1, 2, 4, 8, 16, 32, 64, 128};
  }

  lemma OneClusterFile()
    ensures Tiny.Valid() && WellFormed(Tiny, OneCluster, 2, 512)
    ensures Chain(Tiny, OneCluster, 2, 0) == 2 && Chain(Tiny, OneCluster, 2, 1) == 0xFFFF
  {
    TinyFacts();
    assert Link(Tiny, OneCluster, 2) == 0xFFFF;
    assert Chain(Tiny, OneCluster, 2, 0) == 2;
    assert Chain(Tiny, OneCluster, 2, 1) == Link(Tiny, OneCluster, 2);
    assert EndsAt(Tiny, OneCluster, 2, 1);
  }

  lemma TwoClusterFile()
    ensures Tiny.Valid() && WellFormed(Tiny, TwoClusters, 2, 1024)
    ensures Chain(Tiny, TwoClusters, 2, 0) == 2 && Chain(Tiny, TwoClusters, 2, 1) == 3
  {
    TinyFacts();
    assert Link(Tiny, TwoClusters, 2) == 3 && Link(Tiny, TwoClusters, 3) == 0xFFFF;
    assert Chain(Tiny, TwoClusters, 2, 0) == 2;
    assert Chain(Tiny, TwoClusters, 2, 1) == Link(Tiny, TwoClusters, 2);
    assert Chain(Tiny, TwoClusters, 2, 2) == Link(Tiny, TwoClusters, 3);
    assert EndsAt(Tiny, TwoClusters, 2, 2);
  }

  /** On a working card, seeking from the beginning to the end of a one-sector file that fills its cluster fails,
      although the target is not beyond the size. */
  method SeekToEnd() returns (ok: bool)
    ensures !ok
  {
    hide WellFormed, EndsAt, Chain, ClusterOf, Clusters;
    OneClusterFile();
    TinyFacts();
    var card := new Card(OneCluster, true);
    var volume := new Volume(Tiny, card);
    var file := new FileHandle(2, 512, false);
    ghost var links;
    ok, links := volume.Seek(file, 1);
  }

  lemma TwoSectors()
    ensures Address(Tiny, 2, 1) == FileAddress(Tiny, TwoClusters, 2, 0) == 1
    ensures FileAddress(Tiny, TwoClusters, 2, 1) == 2
    ensures FileSector(Tiny, TwoClusters, 2, 0) == TwoClusters[1] != TwoClusters[2] ==
              FileSector(Tiny, TwoClusters, 2, 1)
  {
    TinyFacts();
    TwoClusterFile();
    assert TwoClusters[1][0] == 1 && TwoClusters[2][0] == 2;
  }

  /** A handle one link behind reads the first sector of a two-sector file where it stands on the second. */
  method ReadBehind() returns (ok: bool, data: Sector, wanted: Sector)
    ensures ok && wanted == FileSector(Tiny, TwoClusters, 2, 1) && data == FileSector(Tiny, TwoClusters, 2, 0) != wanted
  {
    hide WellFormed, EndsAt, Chain, ClusterOf, Clusters, FileSector, FileAddress, Address;
    TwoClusterFile();
    TinyFacts();
    TwoSectors();
    var card := new Card(TwoClusters, true);
    var volume := new Volume(Tiny, card);
    var file := new FileHandle(2, 1024, false);
    file.sector := 1;
    assert file.Behind(Tiny, TwoClusters, 1);
    ok, data := volume.FileRead(file);
    wanted := TwoClusters[2];
  }

  /** Every data cluster of the volume is taken, and the FAT has a free entry behind them. */
  lemma FullVolume()
    ensures Tiny.Valid() && LowestUnused(Tiny, OneCluster, 3) && !DataCluster(Tiny, OneCluster, 3)
    ensures forall d: nat :: DataCluster(Tiny, OneCluster, d) ==> !Unused(Tiny, OneCluster, d)
  {
    TinyFacts();
    assert OneCluster[0][4] == 0xFF && OneCluster[0][6] == 0 && OneCluster[0][7] == 0;
    forall d: nat | DataCluster(Tiny, OneCluster, d) ensures d == 2 {
    }
  }

  /** Allocating on it hands out a cluster that has no data sectors. */
  method AllocateBehind() returns (r: Result)
    ensures r == Created(3) && !DataCluster(Tiny, OneCluster, 3)
  {
    hide LowestUnused, Unused, Allocated, Copied;
    FullVolume();
    var card := new Card(OneCluster, true);
    var volume := new Volume(Tiny, card);
    r := Allocate(volume);
    OnlyThree(r);
  }

  lemma OnlyThree(r: Result)
    requires r.Full? ==> forall c :: 2 <= c ==> !Unused(Tiny, OneCluster, c)
    requires r.Full? || (r.Created? && LowestUnused(Tiny, OneCluster, r.cluster))
    ensures r == Created(3)
  {
    FullVolume();
    assert Unused(Tiny, OneCluster, 3);
  }

  /** A FAT32 volume like the other. */
  const Tiny32: Geometry := Tiny.(fat32 := true)

  /** A FAT32 entry for cluster 2 that is free but for its reserved bits. */
  const Reserved: seq<Sector> := [Blank()[11 := 0xF0], Filled(1)]

  /** The cluster's link says it is free, and the search for a free cluster does not take it. */
  lemma ReservedEntry()
    ensures DataCluster(Tiny32, Reserved, 2) && Link(Tiny32, Reserved, 2) == 0 && !Unused(Tiny32, Reserved, 2)
  {
    assert Reserved[0][8] == 0 && Reserved[0][9] == 0 && Reserved[0][10] == 0 && Reserved[0][11] == 0xF0;
    FreeButTaken(Tiny32, Reserved, 2);
  }
}
