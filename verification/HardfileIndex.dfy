/** The hardfile seek index of the ATA disk. */
module HardfileIndex {
  import opened Storage
  import opened FatChain
  import opened FatFile
  import opened SeekIndex

  /** The links of two clusters of the file, were they consecutive on the card, share a FAT sector:
      the source compares with the cluster mask shifted by 7 or 8. */
  predicate SameFatStretch(g: Geometry, a: nat, b: nat)
    requires g.clusterSize > 0
  {
    a / (g.clusterSize * g.LinksPerSector()) == b / (g.clusterSize * g.LinksPerSector())
  }

  /** Inside such a stretch a forward walk follows fewer links than one FAT sector holds. */
  lemma StretchDistance(g: Geometry, a: nat, b: nat)
    requires g.Valid() && SameFatStretch(g, a, b)
    ensures ClusterOf(g, b) - ClusterOf(g, a) < g.LinksPerSector()
  {
    var cs, l := g.clusterSize, g.LinksPerSector();
    StretchArithmetic(a, cs, l);
    StretchArithmetic(b, cs, l);
  }

  lemma StretchArithmetic(k: nat, cs: nat, l: nat)
    requires cs > 0 && l > 0
    ensures cs * l > 0
    ensures l * (k / (cs * l)) <= k / cs < l * (k / (cs * l)) + l
  {
    MulLe(cs, 1, l);
    var q := k / (cs * l);
    assert k == cs * l * q + k % (cs * l);
    AnchorArithmetic(cs, q, l);
    assert cs * l * q == cs * (q * l);
    QuotientBetween(k, cs, q * l, l);
  }

  class Hardfile {
    const volume: Volume
    const file: FileHandle
    const index: array<nat>
    /** Log2 of the byte stride, 0 while there is no usable index. */
    var indexSize: nat

    constructor (volume: Volume, file: FileHandle)
      ensures this.volume == volume && this.file == file
      ensures fresh(index) && index.Length == ENTRIES && indexSize == 0
    {
      this.volume, this.file := volume, file;
      index := new nat[ENTRIES];
      indexSize := 0;
    }

    /** Sectors between two anchors. */
    ghost function Stride(): nat
      requires indexSize >= 9
      reads this`indexSize
    {
      Pow2(indexSize - 9)
    }

    /** Every anchor a seek can use names the cluster of its sector. */
    ghost predicate Indexed()
      requires volume.g.Valid()
      reads this`indexSize, index, volume.card`sectors, file`startCluster, file`size
    {
      && index.Length == ENTRIES
      && (indexSize != 0 ==>
            && 16 <= indexSize <= 31
            && file.size >= 512 && LastAnchor(file.size / 512, Stride()) < ENTRIES
            && AnchorsHold(volume.g, volume.card.sectors, file.startCluster, file.size, Stride(), index[..],
                           LastAnchor(file.size / 512, Stride()) + 1))
    }

    ghost predicate Ready()
      reads this, index, volume, volume.card, file
    {
      volume.Ready(file) && Indexed()
    }

    /** BuildHardfileIndex: the smallest stride from 128 sectors up that covers the file with 1024
        anchors, then one forward seek per anchor. A read failure leaves no index. */
    method BuildHardfileIndex() returns (ok: bool)
      requires volume.Ready(file) && index.Length == ENTRIES
      modifies this`indexSize, index, volume`fatBuffer, volume`fatIndex, file`sector, file`cluster
      ensures Ready()
      ensures ok <==> indexSize != 0
      ensures ok ==> indexSize == 16 || LastAnchor(file.size / 512, Pow2(indexSize - 10)) >= 1024
      ensures volume.card.healthy && file.size >= 512 ==> ok
    {
      hide ClusterOf, Clusters, LastAnchor, Chain, Link, WellFormed, Pow2, Multiple, AnchorsHold;
      ok := false;
      indexSize := 0;
      var sectors := file.size / 512;
      if sectors == 0 {
        return;
      }
      var shift := SmallestShift(sectors);
      var stride := Pow2(shift);
      var count := LastAnchor(sectors, stride) + 1;
      NoAnchors(volume.g, volume.card.sectors, file.startCluster, file.size, stride, index[..]);
      var i := 0;
      while i < count
        invariant i <= count <= ENTRIES
        invariant volume.Ready(file) && indexSize == 0
        invariant AnchorsHold(volume.g, volume.card.sectors, file.startCluster, file.size, stride, index[..], i)
      {
        AnchorInFile(volume.g, file.size, stride, i);
        ghost var links;
        ok, links := volume.Seek(file, Multiple(stride, i));
        if !ok {
          return;
        }
        AnchorsExtend(volume.g, volume.card.sectors, file.startCluster, file.size, stride, index[..], i, file.cluster);
        index[i] := file.cluster;
        i := i + 1;
      }
      indexSize := shift + 9;
      ok := true;
    }

    /** What the index holds: at `i` the cluster of sector `i` times the stride, for at most 1024 such sectors, up to
        the last in the file. */
    lemma IndexTells(i: nat)
      requires Ready() && indexSize != 0 && Stride() * i < file.size / 512
      ensures 128 <= Stride() && i < 1024
      ensures index[i] == Chain(volume.g, volume.card.sectors, file.startCluster, Stride() * i / volume.g.clusterSize)
    {
      hide Clusters, Chain, WellFormed, Pow2;
      var sectors := file.size / 512;
      StrideFactor(indexSize - 9);
      QuotientMonotone(Stride() * i, sectors - 1, Stride());
      QuotientUnique(Stride() * i, Stride(), i, 0);
      assert index[..][i] == index[i];
    }

    /** HardFileSeek: start from the anchor when the target lies behind the position or outside the
        stretch whose links share one FAT sector, then walk. */
    method HardFileSeek(lba: u32) returns (ok: bool, ghost links: nat)
      requires Ready()
      modifies volume`fatBuffer, volume`fatIndex, file`sector, file`cluster
      ensures Ready()
      ensures ok ==> file.sector == lba < file.size / 512 && indexSize != 0
      ensures !ok && (lba >= file.size / 512 || indexSize == 0) ==> file.sector == old(file.sector)
      ensures volume.card.healthy && lba < file.size / 512 && indexSize != 0 ==> ok
      ensures ok ==> links < StrideLinks(volume.g, Stride()) || links < volume.g.LinksPerSector()
    {
      hide ClusterOf, Clusters, LastAnchor, Chain, Link, WellFormed, Pow2, Anchor, AnchorsHold, SameFatStretch, Slot,
           StrideLinks;
      ok, links := false, 0;
      if lba >= file.size / 512 || indexSize < 9 || indexSize > 31 {
        return;
      }
      var stride := Pow2(indexSize - 9);
      if Slot(stride, lba) >= ENTRIES {
        NeverBeyondTable(lba);
        return;
      }
      LandingCluster(lba);
      ClusterMonotone(volume.g, file.sector, lba);
      if ClusterOf(volume.g, file.sector) != ClusterOf(volume.g, lba) {
        if file.sector > lba || !SameFatStretch(volume.g, file.sector, lba) {
          file.cluster := index[Slot(stride, lba)];
          file.sector := Anchor(stride, lba);
        }
      }
      ok, links := volume.Seek(file, lba);
    }

    lemma LandingCluster(lba: u32)
      requires Ready() && indexSize != 0 && lba < file.size / 512
      ensures var g, anchor := volume.g, Anchor(Stride(), lba);
              && Slot(Stride(), lba) < ENTRIES
              && lba < Sectors(file.size) && ClusterOf(g, lba) < Clusters(g, file.size)
              && index[Slot(Stride(), lba)] == Chain(g, volume.card.sectors, file.startCluster, ClusterOf(g, anchor))
              && anchor <= lba
              && 0 <= ClusterOf(g, lba) - ClusterOf(g, anchor) < StrideLinks(g, Stride())
              && (SameFatStretch(g, file.sector, lba) ==>
                ClusterOf(g, lba) - ClusterOf(g, file.sector) < g.LinksPerSector())
    {
      hide ClusterOf, Clusters, LastAnchor, Chain, WellFormed, SameFatStretch, Pow2, StrideLinks;
      var g := volume.g;
      NeverBeyondTable(lba);
      AnchorOfSector(file.size, Stride(), lba);
      SectorInClusters(g, file.size, lba);
      StrideFactor(indexSize - 9);
      AnchorDistance(g, Stride(), lba);
      assert index[..][Slot(Stride(), lba)] ==
        Chain(g, volume.card.sectors, file.startCluster, ClusterOf(g, Multiple(Stride(), Slot(Stride(), lba))));
      if SameFatStretch(g, file.sector, lba) {
        StretchDistance(g, file.sector, lba);
      }
    }

    /** The guard on the table index never fires. */
    lemma NeverBeyondTable(lba: u32)
      requires Ready() && indexSize != 0 && lba < file.size / 512
      ensures Slot(Stride(), lba) < ENTRIES
    {
      AnchorOfSector(file.size, Stride(), lba);
    }

    /** The shift BuildHardfileIndex settles on. */
    static method SmallestShift(sectors: nat) returns (shift: nat)
      requires 0 < sectors < TWO32 / 512
      ensures 7 <= shift <= 22
      ensures LastAnchor(sectors, Pow2(shift)) < ENTRIES
      ensures shift == 7 || LastAnchor(sectors, Pow2(shift - 1)) >= ENTRIES
    {
      hide Pow2;
      Pow2Values();
      shift := 7;
      while LastAnchor(sectors, Pow2(shift)) >= ENTRIES
        invariant 7 <= shift <= 13
        invariant shift == 7 || LastAnchor(sectors, Pow2(shift - 1)) >= ENTRIES
        decreases 13 - shift
      {
        shift := shift + 1;
      }
    }
  }
}
