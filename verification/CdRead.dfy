/** Reading one logical block of a laid-out CD image. */
module CdRead {
  import opened Storage
  import opened FatChain
  import opened CdTypes
  import opened CdLayout
  import opened CdSeek

  const USER: nat := 2048

  datatype Outcome = Good | IoError | WrongMode | OutOfRange

  // ---------------------------------------------------------------- the disc a layout describes

  /** Blocks are given out in track order without holes. */
  lemma {:induction false} TracksOrdered(files: seq<ImageFile>, tracks: seq<Track>, i: nat, j: nat)
    requires IsLayout(files, tracks) && i < j < |tracks|
    ensures tracks[i].end <= tracks[j].gap
    decreases j
  {
    assert Placed(files, tracks, j) && Placed(files, tracks, j - 1);
    if i < j - 1 {
      TracksOrdered(files, tracks, i, j - 1);
    }
  }

  /** The track whose interval `[gap, end)` holds a block. */
  predicate Covers(tracks: seq<Track>, i: nat, lba: nat)
    requires i < |tracks|
  {
    tracks[i].gap <= lba < tracks[i].end
  }

  /** The intervals partition `[0, blocks)`: every block lies in one track, and in one only. */
  lemma {:induction false} Partition(files: seq<ImageFile>, tracks: seq<Track>, blocks: u32, lba: nat)
    requires LaidOut(files, tracks, blocks)
    ensures lba < blocks <==> exists i :: 0 <= i < |tracks| && Covers(tracks, i, lba)
    ensures forall i, j :: 0 <= i < j < |tracks| ==> !(Covers(tracks, i, lba) && Covers(tracks, j, lba))
  {
    forall i, j | 0 <= i < j < |tracks|
      ensures !(Covers(tracks, i, lba) && Covers(tracks, j, lba))
    {
      TracksOrdered(files, tracks, i, j);
    }
    forall i | 0 <= i < |tracks|
      ensures tracks[i].end <= blocks
    {
      assert Placed(files, tracks, i) && Placed(files, tracks, |tracks| - 1);
      if i < |tracks| - 1 {
        TracksOrdered(files, tracks, i, |tracks| - 1);
      }
    }
    if lba < blocks {
      var i := FirstEndBeyond(tracks, lba, 0);
      CoveredByFirst(files, tracks, lba, i);
    }
  }

  /** The first track that ends beyond a block. */
  function FirstEndBeyond(tracks: seq<Track>, lba: nat, from: nat): (i: nat)
    requires from <= |tracks|
    ensures from <= i <= |tracks|
    ensures i < |tracks| ==> lba < tracks[i].end
    ensures forall j :: from <= j < i ==> tracks[j].end <= lba
    decreases |tracks| - from
  {
    if from < |tracks| && lba >= tracks[from].end then FirstEndBeyond(tracks, lba, from + 1) else from
  }

  lemma CoveredByFirst(files: seq<ImageFile>, tracks: seq<Track>, lba: nat, i: nat)
    requires IsLayout(files, tracks) && i == FirstEndBeyond(tracks, lba, 0)
    requires lba < tracks[|tracks| - 1].end
    ensures i < |tracks| && Covers(tracks, i, lba)
  {
    assert Placed(files, tracks, i);
    if i > 0 {
      assert tracks[i - 1].end <= lba;
    }
  }

  /** Byte extents of tracks that share a file are in track order, apart, and inside the file. */
  lemma {:induction false} ExtentsApart(files: seq<ImageFile>, tracks: seq<Track>, i: nat, j: nat)
    requires Parsed(files, tracks) && IsLayout(files, tracks) && i < j < |tracks| && tracks[i].file == tracks[j].file
    ensures tracks[i].offset + Span(tracks[i].end - tracks[i].start, tracks[i].sectorSize) <= tracks[j].offset
    ensures tracks[j].offset + Span(tracks[j].end - tracks[j].start, tracks[j].sectorSize) <= files[tracks[j].file].size
    decreases j
  {
    hide Span;
    assert Placed(files, tracks, j) && Placed(files, tracks, j - 1);
    FilesOrdered(files, tracks, i, j - 1);
    if i < j - 1 {
      ExtentsApart(files, tracks, i, j - 1);
    }
  }

  lemma {:induction false} FilesOrdered(files: seq<ImageFile>, tracks: seq<Track>, i: nat, j: nat)
    requires Parsed(files, tracks) && i <= j < |tracks|
    ensures tracks[i].file <= tracks[j].file
    decreases j
  {
    if i < j {
      FilesOrdered(files, tracks, i, j - 1);
    }
  }

  // ---------------------------------------------------------------- user data

  /** Bytes before the user data in a stored sector: sync and header, and the XA subheader. */
  function Skip(t: Track): nat {
    (if t.sectorSize == 2352 then 16 else 0) + (if t.mode.Mode2? then 8 else 0)
  }

  /** First byte, in its file, of the stored sector of block `lba`. */
  function Slot(t: Track, lba: nat): int
    requires t.start <= lba
  {
    t.offset + Span(lba - t.start, t.sectorSize)
  }

  /** The slots of a track's blocks tile its extent; user data and subheader stay inside their slot,
      and no 32-bit sum wraps. */
  lemma SlotInExtent(files: seq<ImageFile>, tracks: seq<Track>, i: nat, lba: nat)
    requires Parsed(files, tracks) && IsLayout(files, tracks) && i < |tracks|
    requires tracks[i].start <= lba < tracks[i].end
    ensures var t := tracks[i];
            && t.offset <= Slot(t, lba)
            && Slot(t, lba) + t.sectorSize <= files[t.file].size < TWO32
            && (lba + 1 < t.end ==> Slot(t, lba + 1) == Slot(t, lba) + t.sectorSize)
            && Skip(t) + USER <= t.sectorSize
  {
    hide Begins;
    assert Placed(files, tracks, i);
    var t := tracks[i];
    SpanStep(lba - t.start, t.end - t.start, t.sectorSize);
  }

  lemma SpanStep(n: nat, m: nat, sectorSize: nat)
    requires n < m
    ensures 0 <= Span(n, sectorSize) && Span(n + 1, sectorSize) == Span(n, sectorSize) + sectorSize
    ensures Span(n, sectorSize) + sectorSize <= Span(m, sectorSize)
  {
    MulLe(sectorSize, n + 1, m);
  }

  /** The subheader pair of an XA sector is repeated; bit 5 of its third byte marks Form 2. */
  predicate Form1(header: seq<byte>)
    requires |header| == 8
  {
    header[..4] == header[4..] && header[2] / 32 % 2 == 0
  }

  function Zeros(n: nat): (s: seq<byte>)
    ensures |s| == n && forall i :: 0 <= i < n ==> s[i] == 0
  {
    if n == 0 then [] else Zeros(n - 1) + [0]
  }

  /** Bytes of backing file `file`. */
  function Stored(g: Geometry, disk: seq<Sector>, files: seq<ImageFile>, file: nat, from: nat,
      count: nat): (s: seq<byte>)
    requires g.clusterSize > 0 && file < |files|
    ensures |s| == count
  {
    FileBytes(g, disk, files[file].cluster, from, count)
  }

  /** What a block reads as: nothing for audio, zeros in a pregap, the user area of its stored sector
      otherwise, unless an XA sector is not Form 1. */
  function Block(g: Geometry, disk: seq<Sector>, files: seq<ImageFile>, tracks: seq<Track>,
      lba: nat): (r: (Outcome, seq<byte>))
    requires g.clusterSize > 0 && Parsed(files, tracks)
    ensures r.0.Good? ==> |r.1| == USER
  {
    var i := FirstEndBeyond(tracks, lba, 0);
    if i == |tracks| then (OutOfRange, [])
    else
      var t := tracks[i];
      if t.mode.Audio? then (WrongMode, [])
      else if lba < t.start then (Good, Zeros(USER))
      else
        var at := Slot(t, lba);
        if t.mode.Mode2? && !Form1(Stored(g, disk, files, t.file, at + Skip(t) - 8, 8)) then (WrongMode, [])
        else (Good, Stored(g, disk, files, t.file, at + Skip(t), USER))
  }

  /** Audio is refused, and a pregap reads as zeros. */
  lemma BlockWithoutData(g: Geometry, disk: seq<Sector>, files: seq<ImageFile>, tracks: seq<Track>, i: nat, lba: nat)
    requires g.clusterSize > 0 && Parsed(files, tracks) && i < |tracks| && i == FirstEndBeyond(tracks, lba, 0)
    ensures var t, r := tracks[i], Block(g, disk, files, tracks, lba);
      && (t.mode.Audio? ==> r.0 == WrongMode)
      && (!t.mode.Audio? && lba < t.start ==> r.0 == Good && |r.1| == 2048 && forall k :: 0 <= k < 2048 ==> r.1[k] == 0)
  {
    hide FileBytes, FirstEndBeyond;
  }

  /** Where a data block keeps its 2048 bytes: a raw sector begins with 12 bytes of synchronization and 4 of header. */
  lemma BlockMode1(g: Geometry, disk: seq<Sector>, files: seq<ImageFile>, tracks: seq<Track>, i: nat, lba: nat)
    requires g.clusterSize > 0 && Parsed(files, tracks) && i < |tracks| && i == FirstEndBeyond(tracks, lba, 0)
    requires tracks[i].mode.Mode1? && tracks[i].start <= lba
    ensures var t := tracks[i];
            var at := t.offset + (lba - t.start) * t.sectorSize + if t.sectorSize == 2352 then 12 + 4 else 0;
            Block(g, disk, files, tracks, lba) == (Good, FileBytes(g, disk, files[t.file].cluster, at, 2048))
  {
    hide FileBytes, FirstEndBeyond;
  }

  /** An XA sector has 8 bytes of subheader before its data, which must be of Form 1. */
  lemma BlockMode2(g: Geometry, disk: seq<Sector>, files: seq<ImageFile>, tracks: seq<Track>, i: nat, lba: nat)
    requires g.clusterSize > 0 && Parsed(files, tracks) && i < |tracks| && i == FirstEndBeyond(tracks, lba, 0)
    requires tracks[i].mode.Mode2? && tracks[i].start <= lba
    ensures var t := tracks[i];
            var c, sub := files[t.file].cluster,
                          t.offset + (lba - t.start) * t.sectorSize + if t.sectorSize == 2352 then 12 + 4 else 0;
            Block(g, disk, files, tracks, lba)
            == if FormOne(FileBytes(g, disk, c, sub, 8)) then (Good, FileBytes(g, disk, c, sub + 8, 2048))
               else (WrongMode, [])
  {
    hide FileBytes, FirstEndBeyond, Form1, FormOne, Zeros;
    var t := tracks[i];
    FormOneIs(Stored(g, disk, files, t.file, Slot(t, lba) + Skip(t) - 8, 8));
  }

  /** Both copies of the subheader agree, and the form bit, the sixth of the submode byte, is clear. */
  predicate FormOne(sub: seq<byte>)
    requires |sub| == 8
  {
    && sub[0] == sub[4] && sub[1] == sub[5] && sub[2] == sub[6] && sub[3] == sub[7]
    && (sub[2] as int as bv8) & 0x20 == 0
  }

  lemma FormOneIs(sub: seq<byte>)
    requires |sub| == 8
    ensures FormOne(sub) <==> Form1(sub)
  {
    FormBit(sub[2] as int as bv8);
    assert sub[..4] == sub[4..] <==> forall k :: 0 <= k < 4 ==> sub[..4][k] == sub[4..][k];
  }

  lemma FormBit(x: bv8)
    ensures x & 0x20 == 0 <==> (x as int) / 32 % 2 == 0
  {
  }

  /** The search loop of CDImageRead. */
  method FindTrack(tracks: seq<Track>, lba: nat) returns (i: nat)
    ensures i == FirstEndBeyond(tracks, lba, 0)
  {
    i := 0;
    while i < |tracks| && lba >= tracks[i].end
      invariant i <= |tracks| && FirstEndBeyond(tracks, lba, i) == FirstEndBeyond(tracks, lba, 0)
    {
      i := i + 1;
    }
  }

  /** CDImageRead. */
  method ReadBlock(store: SeekCache, image: CDImage, lba: u32) returns (result: Outcome, data: seq<byte>)
    requires store.Valid() && image.OnCard(store.volume.g, store.volume.card.sectors)
    requires LaidOut(image.files, image.tracks, image.blocks)
    modifies store, store.cache, store.seekIndex, store.volume`fatBuffer, store.volume`fatIndex
    ensures store.Valid()
    ensures store.cachedImage == old(store.cachedImage) || store.cachedImage == image || store.cachedImage == null
    ensures result.OutOfRange? <==> lba >= image.blocks
    ensures !result.IoError? && !result.OutOfRange? ==>
              (result, data) == Block(store.volume.g, store.volume.card.sectors, image.files, image.tracks, lba)
    ensures store.volume.card.healthy ==> !result.IoError?
  {
    hide FileBytes, Stored, Span, FirstEndBeyond, IsLayout, Parsed, Form1, SeekCache.Valid;
    result, data := OutOfRange, [];
    StoreFacts(store);
    LaidOutFacts(image.files, image.tracks, image.blocks, lba);
    if lba >= image.blocks {
      return;
    }
    var i := FindTrack(image.tracks, lba);
    if i == |image.tracks| {
      return;
    }
    var t := image.tracks[i];
    if t.mode.Audio? {
      return WrongMode, [];
    }
    if lba < t.start {
      return Good, Zeros(USER);
    }
    SlotInExtent(image.files, image.tracks, i, lba);
    var ok := store.SelectFile(image, t.file);
    if !ok {
      return IoError, [];
    }
    ServedBytes(store, image, t.file);
    var offset := Slot(t, lba);
    if t.mode.Mode2? {
      if t.sectorSize == 2352 {
        offset := offset + 16;
      }
      var header;
      ok, header := store.ReadBytes(offset, 8);
      if !ok {
        return IoError, [];
      }
      if !Form1(header) {
        return WrongMode, [];
      }
      offset := offset + 8;
    } else if t.sectorSize == 2352 {
      offset := offset + 16;
    }
    ok, data := store.ReadBytes(offset, USER);
    result := if ok then Good else IoError;
  }

  lemma StoreFacts(store: SeekCache)
    requires store.Valid()
    ensures store.volume.g.clusterSize > 0
  {
  }

  lemma LaidOutFacts(files: seq<ImageFile>, tracks: seq<Track>, blocks: u32, lba: nat)
    requires LaidOut(files, tracks, blocks)
    ensures Parsed(files, tracks) && IsLayout(files, tracks)
    ensures |tracks| > 0 && blocks == tracks[|tracks| - 1].end
    ensures forall i :: 0 <= i < |tracks| ==> tracks[i].file < |files|
    ensures lba < blocks ==> FirstEndBeyond(tracks, lba, 0) < |tracks|
  {
  }

  lemma ServedBytes(store: SeekCache, image: CDImage, file: nat)
    requires store.Serves(image, file)
    ensures store.volume.g.clusterSize > 0 && store.cache.size == image.files[file].size
    ensures forall from: nat, count: nat ::
              FileBytes(store.volume.g, store.volume.card.sectors, store.cache.startCluster, from, count)
              == Stored(store.volume.g, store.volume.card.sectors, image.files, file, from, count)
  {
    hide FileBytes;
  }
}
