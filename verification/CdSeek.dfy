/** The one seek cache shared by all CD image files: an open handle and the clusters of every
    `stride`-th sector of the file it was built for. */
module CdSeek {
  import opened Storage
  import opened FatChain
  import opened FatFile
  import opened SeekIndex
  import opened CdTypes

  class SeekCache {
    const volume: Volume
    const cache: FileHandle
    const seekIndex: array<nat>
    var stride: nat
    var cachedImage: CDImage?
    var cachedFile: nat

    constructor (volume: Volume, cache: FileHandle)
      requires volume.Valid()
      ensures this.volume == volume && this.cache == cache && cachedImage == null
      ensures fresh(seekIndex) && seekIndex.Length == ENTRIES
    {
      this.volume, this.cache := volume, cache;
      seekIndex := new nat[ENTRIES];
      stride, cachedImage, cachedFile := 0, null, 0;
    }

    /** Sector of the last byte; an empty file wraps around to the last sector of a 4 GiB file. */
    static function LastSector(size: u32): nat {
      ((size - 1) % TWO32) / 512
    }

    ghost function Anchors(): nat
      reads `stride, cache`size
    {
      if stride > 0 then Slot(stride, LastSector(cache.size)) + 1 else 0
    }

    /** The handle and its anchors belong to file `number` of `image`. */
    ghost predicate Serves(image: CDImage, number: nat)
      reads this, cache, seekIndex, volume, volume.card, image
    {
      && volume.Ready(cache)
      && number < |image.files|
      && cache.startCluster == image.files[number].cluster
      && cache.size == image.files[number].size > 0
      && stride >= 128 && stride % 128 == 0
      && seekIndex.Length == ENTRIES && Anchors() <= ENTRIES
      && AnchorsHold(volume.g, volume.card.sectors, cache.startCluster, cache.size, stride, seekIndex[..], Anchors())
    }

    /** Whatever image the cache claims to serve, it serves. */
    ghost predicate Valid()
      reads this, cache, seekIndex, volume, volume.card, cachedImage
    {
      && volume.Valid()
      && seekIndex.Length == ENTRIES
      && (cachedImage != null ==> Serves(cachedImage, cachedFile))
    }

    /** CDImageInvalidate. */
    method Invalidate()
      requires volume.Valid() && seekIndex.Length == ENTRIES
      modifies this`cachedImage, this`cachedFile
      ensures Valid() && cachedImage == null
    {
      cachedImage, cachedFile := null, 0;
    }

    /** The handle starts over on another file. */
    method Rewind(file: ImageFile)
      requires volume.Valid() && WellFormed(volume.g, volume.card.sectors, file.cluster, file.size)
      modifies cache
      ensures volume.Ready(cache)
      ensures cache.startCluster == file.cluster && cache.size == file.size
    {
      hide Clusters, Link, WellFormed;
      FirstCluster(volume.g);
      cache.size, cache.sector := file.size, 0;
      cache.startCluster := file.cluster;
      cache.cluster, cache.readOnly := cache.startCluster, false;
    }

    /** The smallest power-of-two stride from 128 sectors up that covers the file. */
    method ChooseStride(last: nat)
      requires last < TWO32 / 512
      modifies this`stride
      ensures 128 <= stride <= 8192 && stride % 128 == 0
      ensures last / stride < 1024
      ensures stride == 128 || last / (stride / 2) >= 1024
    {
      stride := 128;
      while Slot(stride, last) >= ENTRIES
        invariant stride in {128, 256, 512, 1024, 2048, 4096, 8192}
        invariant stride == 128 || Slot(stride / 2, last) >= ENTRIES
        decreases 8192 - stride
      {
        stride := stride * 2;
      }
    }

    /** The loop of select_file: one forward seek per anchor. For an empty file it stops at the second
        anchor, which lies beyond its end. */
    method FillIndex(last: nat) returns (ok: bool)
      requires volume.Ready(cache) && seekIndex.Length == ENTRIES && last == LastSector(cache.size)
      requires 128 <= stride <= 8192 && stride % 128 == 0 && Slot(stride, last) < ENTRIES
      modifies seekIndex, cache`sector, cache`cluster, volume`fatBuffer, volume`fatIndex
      ensures volume.Ready(cache) || (!ok && volume.Valid())
      ensures ok ==> cache.size > 0
      ensures ok ==>
                AnchorsHold(volume.g, volume.card.sectors, cache.startCluster, cache.size, stride, seekIndex[..],
                  Anchors())
      ensures volume.card.healthy && cache.size > 0 ==> ok
    {
      hide ClusterOf, Clusters, Link, WellFormed, Chain, Multiple, Slot, AnchorsHold, LastSector;
      LastSectorBound(cache.size);
      NoAnchors(volume.g, volume.card.sectors, cache.startCluster, cache.size, stride, seekIndex[..]);
      ok := true;
      var pos, n := 0, 0;
      while pos <= last
        invariant volume.Ready(cache)
        invariant pos == Multiple(stride, n) && n <= Slot(stride, last) + 1
        invariant n > 0 ==> pos >= 128
        invariant cache.size == 0 ==> pos <= stride
        invariant cache.size > 0 ==>
                    AnchorsHold(volume.g, volume.card.sectors, cache.startCluster, cache.size, stride, seekIndex[..], n)
        decreases Slot(stride, last) + 1 - n
      {
        AnchorReached(last, stride, n);
        AnchorInRange(pos, cache.size);
        ghost var links;
        ok, links := volume.Seek(cache, pos);
        if !ok {
          return;
        }
        if cache.size > 0 {
          AnchorsExtend(volume.g, volume.card.sectors, cache.startCluster, cache.size, stride, seekIndex[..], n,
            cache.cluster);
        }
        seekIndex[n] := cache.cluster;
        NextMultiple(stride, n);
        n := n + 1;
        pos := pos + stride;
      }
      AnchorsDone(last, stride, n);
    }

    static lemma NextMultiple(stride: nat, n: nat)
      ensures Multiple(stride, n) + stride == Multiple(stride, n + 1)
    {
    }

    lemma AnchorInRange(pos: nat, size: u32)
      requires volume.g.Valid() && pos <= LastSector(size)
      ensures size > 0 ==> pos <= size / 512 && ClusterOf(volume.g, pos) < Clusters(volume.g, size)
    {
      SectorInClusters(volume.g, size, pos);
    }

    static lemma AnchorReached(last: nat, stride: nat, n: nat)
      requires stride > 0 && Multiple(stride, n) <= last
      ensures n <= Slot(stride, last)
    {
      QuotientMonotone(stride * n, last, stride);
      QuotientUnique(stride * n, stride, n, 0);
    }

    static lemma AnchorsDone(last: nat, stride: nat, n: nat)
      requires stride > 0 && Multiple(stride, n) > last && n <= Slot(stride, last) + 1
      ensures n == Slot(stride, last) + 1
    {
      if n <= Slot(stride, last) {
        MulLe(stride, n, Slot(stride, last));
      }
    }

    /** select_file: reuse the index built for this very image slot and file, or build it. */
    method SelectFile(image: CDImage, number: nat) returns (ok: bool)
      requires Valid() && number < |image.files| && image.OnCard(volume.g, volume.card.sectors)
      modifies this, cache, seekIndex, volume`fatBuffer, volume`fatIndex
      ensures Valid()
      ensures ok ==> cachedImage == image && cachedFile == number && Serves(image, number)
      ensures !ok ==> cachedImage == null
      ensures volume.card.healthy && image.files[number].size > 0 ==> ok
    {
      hide WellFormed, AnchorsHold, LastSector;
      if cachedImage == image && cachedFile == number {
        return true;
      }
      Invalidate();
      LastSectorBound(image.files[number].size);
      Rewind(image.files[number]);
      var last := LastSector(cache.size);
      ChooseStride(last);
      ok := FillIndex(last);
      if ok {
        cachedFile, cachedImage := number, image;
      }
    }

    static lemma LastSectorBound(size: u32)
      ensures size > 0 ==> 512 * LastSector(size) < size <= 512 * LastSector(size) + 512
      ensures LastSector(size) < TWO32 / 512
      ensures size == 0 ==> LastSector(size) == TWO32 / 512 - 1
    {
    }

    /** One turn of the read_bytes loop: put the handle on `block`, from its anchor unless the handle
        is already in the same stride at or before it, and read the sector. */
    method ReadBlock(block: u32) returns (ok: bool, data: Sector, ghost links: nat)
      requires Valid() && cachedImage != null && block <= LastSector(cache.size)
      modifies this`cachedImage, this`cachedFile, cache`sector, cache`cluster, volume`fatBuffer, volume`fatIndex
      ensures Valid()
      ensures ok ==> cachedImage == old(cachedImage) && cachedFile == old(cachedFile)
      ensures ok ==> data == FileSector(volume.g, volume.card.sectors, cache.startCluster, block)
      ensures ok ==> links < StrideLinks(volume.g, stride)
      ensures !ok ==> cachedImage == null
      ensures volume.card.healthy ==> ok
    {
      hide ClusterOf, Clusters, Chain, Link, WellFormed, FileSector, Anchor, AnchorsHold, LastSector, Anchors, Slot,
           StrideLinks;
      BlockFacts(block);
      var anchor := Slot(stride, block);
      if cache.sector > block || Slot(stride, cache.sector) != anchor {
        cache.sector := Anchor(stride, block);
        cache.cluster := seekIndex[anchor];
      }
      ok, links := volume.Seek(cache, block);
      data := Blank();
      if ok {
        ok, data := volume.FileReadChecked(cache);
      }
      if !ok {
        Invalidate();
      }
    }

    lemma BlockFacts(block: u32)
      requires Valid() && cachedImage != null && block <= LastSector(cache.size)
      ensures var g, a := volume.g, Anchor(stride, block);
              && block < Sectors(cache.size) && block <= cache.size / 512
              && ClusterOf(g, block) < Clusters(g, cache.size)
              && Slot(stride, block) < ENTRIES
              && seekIndex[Slot(stride, block)] == Chain(g, volume.card.sectors, cache.startCluster, ClusterOf(g, a))
              && a <= block
              && 0 <= ClusterOf(g, block) - ClusterOf(g, a) < StrideLinks(g, stride)
              && (cache.sector <= block && Slot(stride, cache.sector) == Slot(stride, block) ==>
                    0 <= ClusterOf(g, block) - ClusterOf(g, cache.sector) < StrideLinks(g, stride))
    {
      hide ClusterOf, Clusters, Chain, WellFormed, Link, Slot, Multiple, Anchor, StrideLinks;
      var g := volume.g;
      SectorInClusters(g, cache.size, block);
      SlotMonotone(stride, block, LastSector(cache.size));
      AnchorDistance(g, stride, block);
      assert seekIndex[..][Slot(stride, block)] ==
        Chain(g, volume.card.sectors, cache.startCluster, ClusterOf(g, Multiple(stride, Slot(stride, block))));
      if cache.sector <= block && Slot(stride, cache.sector) == Slot(stride, block) {
        SlotMonotone(stride, cache.sector, block);
        AnchorDistance(g, stride, cache.sector);
        ClusterMonotone(g, cache.sector, block);
      }
    }

    static lemma LastBlock(at: nat, size: u32)
      requires at < size
      ensures at / 512 <= LastSector(size)
    {
    }

    lemma SizeOfServed()
      requires Valid() && cachedImage != null
      ensures volume.g.clusterSize > 0
    {
    }

    /** read_bytes. */
    method ReadBytes(offset: u32, count: u32) returns (ok: bool, data: seq<byte>)
      requires Valid() && cachedImage != null
      modifies this`cachedImage, this`cachedFile, cache`sector, cache`cluster, volume`fatBuffer, volume`fatIndex
      ensures Valid()
      ensures cachedImage == old(cachedImage) || cachedImage == null
      ensures cachedImage != null ==> cachedFile == old(cachedFile)
      ensures ok ==> offset + count <= cache.size
      ensures ok ==> data == FileBytes(volume.g, volume.card.sectors, cache.startCluster, offset, count)
      ensures ok ==> cachedImage != null
      ensures volume.card.healthy ==> (ok <==> offset + count <= cache.size)
    {
      hide FileBytes, FileSector, Serves;
      SizeOfServed();
      ok, data := true, [];
      if offset > cache.size || count > cache.size - offset {
        ok := false;
        return;
      }
      var at, left := offset as nat, count as nat;
      while left > 0
        invariant Valid() && cachedImage == old(cachedImage) && cachedImage != null && cachedFile == old(cachedFile)
        invariant at == offset + |data| && left == count - |data| && |data| <= count
        invariant data == FileBytes(volume.g, volume.card.sectors, cache.startCluster, offset, |data|)
      {
        var block, skip := at / 512, at % 512;
        var n := 512 - skip;
        if n > left {
          n := left;
        }
        LastBlock(at, cache.size);
        var s;
        ghost var links;
        ok, s, links := ReadBlock(block);
        if !ok {
          return;
        }
        ghost var g, disk := volume.g, volume.card.sectors;
        SectorBytes(g, disk, cache.startCluster, block, skip, skip + n);
        FileBytesJoin(g, disk, cache.startCluster, offset, |data|, n);
        data := data + s[skip..skip + n];
        at := at + n;
        left := left - n;
      }
    }
  }
}
