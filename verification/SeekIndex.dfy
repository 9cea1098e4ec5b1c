/** Seek indices: the cluster of every `stride`-th sector of a file, kept so that a seek can start from
    a nearby anchor instead of the start of the chain. Shared by the hardfile and the CD reader. */
module SeekIndex {
  import opened Storage
  import opened FatChain

  const ENTRIES: nat := 1024

  function Pow2(n: nat): (p: nat)
    ensures p > 0
  {
    if n == 0 then 1 else 2 * Pow2(n - 1)
  }

  lemma Pow2Values()
    ensures Pow2(7) == 128 && Pow2(13) == 8192
  {
    assert Pow2(7) == 2 * Pow2(6) == 4 * Pow2(5) == 8 * Pow2(4) == 16 * Pow2(3);
    assert Pow2(13) == 2 * Pow2(12) == 4 * Pow2(11) == 8 * Pow2(10) == 16 * Pow2(9);
    assert Pow2(9) == 2 * Pow2(8) == 4 * Pow2(7);
    assert Pow2(3) == 8;
  }

  /** Strides are multiples of 128 sectors, hence of every cluster size. */
  lemma {:induction false} StrideFactor(shift: nat)
    requires shift >= 7
    ensures Pow2(shift) == 128 * Pow2(shift - 7)
  {
    if shift == 7 {
      Pow2Values();
    } else {
      StrideFactor(shift - 1);
    }
  }

  /** `stride` sectors are `stride / clusterSize` whole clusters. */
  lemma StrideClusters(g: Geometry, stride: nat, i: nat)
    requires g.Valid() && stride > 0 && stride % 128 == 0
    ensures ClusterOf(g, Multiple(stride, i)) == i * (stride / g.clusterSize)
    ensures stride / g.clusterSize * g.clusterSize == stride
  {
    var cs := g.clusterSize;
    WholeClusters(stride, cs);
    AnchorArithmetic(cs, i, stride / cs);
    QuotientUnique(stride * i, cs, i * (stride / cs), 0);
  }

  lemma WholeClusters(stride: nat, cs: nat)
    requires stride % 128 == 0 && cs in {1, 2, 4, 8, 16, 32, 64, 128}
    ensures stride / cs * cs == stride
  {
    var parts := 128 / cs;
    assert cs * parts == 128;
    Regroup(cs, parts, stride / 128);
    QuotientUnique(stride, cs, parts * (stride / 128), 0);
  }

  lemma Regroup(a: nat, b: nat, c: nat)
    ensures a * b * c == a * (b * c)
  {
  }

  /** The sector of anchor `i`. */
  function Multiple(stride: nat, i: nat): nat {
    stride * i
  }

  /** The table slot that serves sector `k`. */
  function Slot(stride: nat, k: nat): nat
    requires stride > 0
  {
    k / stride
  }

  /** The last multiple of `stride` at or below `k`. */
  function Anchor(stride: nat, k: nat): (a: nat)
    requires stride > 0
    ensures a <= k < a + stride
  {
    Multiple(stride, Slot(stride, k))
  }

  lemma SlotMonotone(stride: nat, a: nat, b: nat)
    requires stride > 0 && a <= b
    ensures Slot(stride, a) <= Slot(stride, b)
    ensures Slot(stride, a) == Slot(stride, b) ==> Anchor(stride, a) == Anchor(stride, b)
    ensures Anchor(stride, a) == Multiple(stride, Slot(stride, a))
  {
    hide Multiple;
    QuotientMonotone(a, b, stride);
  }

  lemma QuotientBetween(k: nat, cs: nat, m: nat, s: nat)
    requires cs > 0 && cs * m <= k < cs * m + cs * s
    ensures m <= k / cs < m + s
  {
    if k / cs < m {
      MulLe(cs, k / cs + 1, m);
    }
    if m + s <= k / cs {
      MulLe(cs, m + s, k / cs);
    }
  }

  /** Clusters in one stride: the links between two anchors. */
  function StrideLinks(g: Geometry, stride: nat): nat
    requires g.clusterSize > 0
  {
    stride / g.clusterSize
  }

  /** From its anchor a sector is less than one stride of clusters away. */
  lemma AnchorDistance(g: Geometry, stride: nat, k: nat)
    requires g.Valid() && stride > 0 && stride % 128 == 0
    ensures 0 <= ClusterOf(g, k) - ClusterOf(g, Anchor(stride, k)) < StrideLinks(g, stride)
  {
    hide ClusterOf;
    var i, s := k / stride, stride / g.clusterSize;
    assert Anchor(stride, k) == stride * i;
    assert ClusterOf(g, Multiple(stride, i)) == i * s by {
      StrideClusters(g, stride, i);
    }
    assert s * g.clusterSize == stride by {
      StrideClusters(g, stride, i);
    }
    assert i * s <= ClusterOf(g, k) < i * s + s by {
      StepsBetween(g, stride, k, i, s);
    }
  }

  lemma StepsBetween(g: Geometry, stride: nat, k: nat, i: nat, s: nat)
    requires g.Valid() && s * g.clusterSize == stride && stride * i <= k < stride * i + stride
    ensures i * s <= ClusterOf(g, k) < i * s + s
  {
    AnchorArithmetic(g.clusterSize, i, s);
    QuotientBetween(k, g.clusterSize, i * s, s);
  }

  lemma AnchorArithmetic(cs: nat, i: nat, s: nat)
    ensures s * cs * i == cs * (i * s)
  {
  }

  /** Number of the last anchor of a file of `sectors` whole sectors. */
  function LastAnchor(sectors: nat, stride: nat): nat
    requires sectors > 0 && stride > 0
  {
    (sectors - 1) / stride
  }

  lemma LastAnchorTells(sectors: nat, stride: nat)
    requires sectors > 0 && stride > 0
    ensures stride * LastAnchor(sectors, stride) < sectors <= stride * LastAnchor(sectors, stride) + stride
  {
  }

  lemma AnchorBelow(sectors: nat, stride: nat, i: nat)
    requires sectors > 0 && stride > 0 && i <= LastAnchor(sectors, stride)
    ensures Multiple(stride, i) < sectors
  {
    MulLe(stride, i, (sectors - 1) / stride);
  }

  /** Every anchor up to the last lies inside the file. */
  lemma AnchorInFile(g: Geometry, size: u32, stride: nat, i: nat)
    requires g.Valid() && size >= 512 && stride > 0 && i <= LastAnchor(size / 512, stride)
    ensures Multiple(stride, i) < size / 512
    ensures ClusterOf(g, Multiple(stride, i)) < Clusters(g, size)
  {
    hide LastAnchor, ClusterOf, Clusters;
    AnchorBelow(size / 512, stride, i);
    SectorInClusters(g, size, Multiple(stride, i));
  }

  lemma AnchorOfSector(size: u32, stride: nat, k: nat)
    requires stride > 0 && k < size / 512
    ensures Slot(stride, k) <= LastAnchor(size / 512, stride)
  {
    QuotientMonotone(k, size / 512 - 1, stride);
  }

  /** The cluster an anchor entry must hold. */
  ghost predicate AnchorsHold(g: Geometry, disk: seq<Sector>, start: nat, size: nat, stride: nat, index: seq<nat>,
      count: nat)
    requires g.Valid()
  {
    && stride > 0
    && count <= |index|
    && forall i :: 0 <= i < count ==> index[i] == Chain(g, disk, start, ClusterOf(g, Multiple(stride, i)))
  }

  lemma NoAnchors(g: Geometry, disk: seq<Sector>, start: nat, size: nat, stride: nat, index: seq<nat>)
    requires g.Valid() && stride > 0
    ensures AnchorsHold(g, disk, start, size, stride, index, 0) && Multiple(stride, 0) == 0
  {
  }

  lemma AnchorsExtend(g: Geometry, disk: seq<Sector>, start: nat, size: nat, stride: nat, index: seq<nat>, n: nat,
      cluster: nat)
    requires g.Valid() && AnchorsHold(g, disk, start, size, stride, index, n) && n < |index|
    requires cluster == Chain(g, disk, start, ClusterOf(g, Multiple(stride, n)))
    ensures AnchorsHold(g, disk, start, size, stride, index[n := cluster], n + 1)
  {
    hide Multiple, ClusterOf, Chain;
  }

  lemma AnchorsFrame(g: Geometry, before: seq<Sector>, after: seq<Sector>, start: nat, size: nat, stride: nat,
      index: seq<nat>, count: nat)
    requires g.Valid() && SameFat(g, before, after) && AnchorsHold(g, before, start, size, stride, index, count)
    ensures AnchorsHold(g, after, start, size, stride, index, count)
  {
    hide Multiple, ClusterOf, Chain, SameFat;
    forall i | 0 <= i < count ensures index[i] == Chain(g, after, start, ClusterOf(g, Multiple(stride, i))) {
      ChainFrame(g, before, after, start, ClusterOf(g, Multiple(stride, i)));
    }
  }
}
