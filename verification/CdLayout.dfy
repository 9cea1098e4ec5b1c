/** Where the tracks of a CD image lie: as logical blocks on the disc, and as bytes in the backing
    files. The equations come from the CUE sheet; `Layout` solves them in 32-bit arithmetic. */
module CdLayout {
  import opened Storage
  import opened CdTypes

  // ---------------------------------------------------------------- the equations

  /** Track `i` is the first, or last, one stored in its file. */
  predicate Opens(tracks: seq<Track>, i: nat)
    requires i < |tracks|
  {
    i == 0 || tracks[i - 1].file != tracks[i].file
  }

  predicate Closes(tracks: seq<Track>, i: nat)
    requires i < |tracks|
  {
    i + 1 == |tracks| || tracks[i + 1].file != tracks[i].file
  }

  /** First block in the file that belongs to a track, its stored pregap included. */
  function Boundary(t: Track): u32 {
    if t.has0 then t.index0 else t.index1
  }

  predicate SoundCue(t: Track) {
    t.has1 && (t.has0 ==> t.index0 <= t.index1)
  }

  /** Stored blocks before the track's own data. */
  function Lead(tracks: seq<Track>, i: nat): (n: nat)
    requires i < |tracks| && SoundCue(tracks[i])
  {
    if Opens(tracks, i) then tracks[i].index1 else tracks[i].index1 - Boundary(tracks[i])
  }

  /** Bytes of `blocks` sectors. */
  function Span(blocks: int, sectorSize: nat): (n: int)
    ensures blocks >= 0 ==> n >= 0
  {
    blocks * sectorSize
  }

  /** Block and byte at which track `i` begins. */
  predicate Begins(files: seq<ImageFile>, tracks: seq<Track>, i: nat)
    requires i < |tracks|
  {
    var t := tracks[i];
    && SoundCue(t)
    && t.file < |files|
    && t.gap == (if i == 0 then 0 else tracks[i - 1].end)
    && t.start == (if i == 0 then 0 else tracks[i - 1].end + Lead(tracks, i) + t.pregap)
    && t.offset == Span(Lead(tracks, i), t.sectorSize)
                   + (if Opens(tracks, i) then 0
                      else tracks[i - 1].offset
                           + Span(tracks[i - 1].end - tracks[i - 1].start, tracks[i - 1].sectorSize))
    && t.offset <= files[t.file].size
  }

  /** Block and byte at which track `i` ends: where the next track stored in the file begins, or with
      the file itself. */
  predicate Ends(files: seq<ImageFile>, tracks: seq<Track>, i: nat)
    requires i < |tracks|
  {
    var t := tracks[i];
    && t.file < |files|
    && t.start < t.end
    && (if Closes(tracks, i) then t.offset + Span(t.end - t.start, t.sectorSize) == files[t.file].size
        else
          && t.end - t.start == Boundary(tracks[i + 1]) - t.index1
          && t.offset + Span(t.end - t.start, t.sectorSize) <= files[t.file].size)
  }

  predicate Placed(files: seq<ImageFile>, tracks: seq<Track>, i: nat)
    requires i < |tracks|
  {
    Begins(files, tracks, i) && Ends(files, tracks, i)
  }

  predicate IsLayout(files: seq<ImageFile>, tracks: seq<Track>) {
    |tracks| > 0 && forall i :: 0 <= i < |tracks| ==> Placed(files, tracks, i)
  }

  /** The same CUE sheet, placed differently or not at all. */
  predicate SameCue(a: seq<Track>, b: seq<Track>) {
    && |a| == |b|
    && forall i :: 0 <= i < |a| ==>
         b[i] == a[i].(start := b[i].start, end := b[i].end, gap := b[i].gap, offset := b[i].offset)
  }

  /** The sector formats the parser knows. */
  predicate KnownFormat(t: Track) {
    match t.mode
    case Audio => t.sectorSize == 2352
    case Mode1 => t.sectorSize == 2048 || t.sectorSize == 2352
    case Mode2 => t.sectorSize == 2336 || t.sectorSize == 2352
  }

  /** The five of them: raw audio, cooked and raw Mode 1, XA and raw Mode 2. */
  lemma KnownFormats(t: Track)
    ensures KnownFormat(t) <==>
              (t.mode, t.sectorSize) in {(Audio, 2352), (Mode1, 2048), (Mode1, 2352), (Mode2, 2336), (Mode2, 2352)}
  {
  }

  /** Track numbers have two digits and follow each other. */
  predicate Numbered(tracks: seq<Track>) {
    forall i :: 0 <= i < |tracks| ==> 1 <= tracks[i].number <= 99 && tracks[i].number == tracks[0].number + i
  }

  /** Any numbers from 1 to 99 that follow each other. */
  lemma NumbersTell(tracks: seq<Track>, first: nat)
    requires 1 <= first && first + |tracks| <= 100 && forall i :: 0 <= i < |tracks| ==> tracks[i].number == first + i
    ensures Numbered(tracks)
  {
  }

  /** What CDImageOpen's parser guarantees before it calls layout. */
  predicate Parsed(files: seq<ImageFile>, tracks: seq<Track>) {
    && (forall i :: 0 <= i < |tracks| ==> tracks[i].file < |files| && KnownFormat(tracks[i]))
    && (forall i :: 0 < i < |tracks| ==> tracks[i - 1].file <= tracks[i].file)
    && Numbered(tracks)
  }

  /** A finished image. */
  predicate LaidOut(files: seq<ImageFile>, tracks: seq<Track>, blocks: u32) {
    && Parsed(files, tracks)
    && IsLayout(files, tracks)
    && blocks == tracks[|tracks| - 1].end
  }

  /** Track `i` as the fields of the sheet place it: with the first INDEX of the sheet ends the track before it in the
      same file, stored and other pregaps come before INDEX 01, and the last track of a file takes the rest of it. */
  predicate Fitting(files: seq<ImageFile>, tracks: seq<Track>, i: nat)
    requires i < |tracks|
  {
    var t := tracks[i];
    && t.has1 && (t.has0 ==> t.index0 <= t.index1) && t.file < |files| && t.start < t.end
    && t.offset + (t.end - t.start) * t.sectorSize <= files[t.file].size
    && (i + 1 == |tracks| || tracks[i + 1].file != t.file ==>
          t.offset + (t.end - t.start) * t.sectorSize == files[t.file].size)
    && if i == 0 then t.gap == 0 && t.start == 0 && t.offset == t.index1 * t.sectorSize
       else
         var s := tracks[i - 1];
         t.gap == s.end &&
         if s.file != t.file then t.start == s.end + t.index1 + t.pregap && t.offset == t.index1 * t.sectorSize
         else
           var first := if t.has0 then t.index0 else t.index1;
           && s.end - s.start == first - s.index1 && t.start == s.end + (t.index1 - first) + t.pregap
           && t.offset == s.offset + (s.end - s.start) * s.sectorSize + (t.index1 - first) * t.sectorSize
  }

  /** That is what a layout is, no more and no less. */
  lemma LayoutExactly(files: seq<ImageFile>, tracks: seq<Track>)
    ensures IsLayout(files, tracks) <==> |tracks| > 0 && forall i :: 0 <= i < |tracks| ==> Fitting(files, tracks, i)
  {
    hide Placed, Fitting;
    if IsLayout(files, tracks) {
      forall i | 0 <= i < |tracks| ensures Fitting(files, tracks, i) {
        PlacedFits(files, tracks, i);
      }
    }
    if |tracks| > 0 && forall i :: 0 <= i < |tracks| ==> Fitting(files, tracks, i) {
      forall i | 0 <= i < |tracks| ensures Placed(files, tracks, i) {
        FittingPlaces(files, tracks, i);
      }
    }
  }

  lemma PlacedFits(files: seq<ImageFile>, tracks: seq<Track>, i: nat)
    requires i < |tracks| && Placed(files, tracks, i) && (i > 0 ==> Placed(files, tracks, i - 1))
    ensures Fitting(files, tracks, i)
  {
  }

  lemma FittingPlaces(files: seq<ImageFile>, tracks: seq<Track>, i: nat)
    requires i < |tracks| && Fitting(files, tracks, i) && (i + 1 < |tracks| ==> Fitting(files, tracks, i + 1))
    ensures Placed(files, tracks, i)
  {
    hide Begins, Ends, Fitting;
    FittingBegins(files, tracks, i);
    FittingEnds(files, tracks, i);
  }

  lemma FittingBegins(files: seq<ImageFile>, tracks: seq<Track>, i: nat)
    requires i < |tracks| && Fitting(files, tracks, i)
    ensures Begins(files, tracks, i)
  {
    var t := tracks[i];
    assert Span(Lead(tracks, i), t.sectorSize) == Lead(tracks, i) * t.sectorSize;
    NotBelow(t.end - t.start, t.sectorSize);
  }

  lemma FittingEnds(files: seq<ImageFile>, tracks: seq<Track>, i: nat)
    requires i < |tracks| && Fitting(files, tracks, i) && (i + 1 < |tracks| ==> Fitting(files, tracks, i + 1))
    ensures Ends(files, tracks, i)
  {
    var t := tracks[i];
    assert Span(t.end - t.start, t.sectorSize) == (t.end - t.start) * t.sectorSize;
    hide Span;
  }

  lemma NotBelow(blocks: int, sectorSize: nat)
    requires blocks >= 0
    ensures blocks * sectorSize >= 0
  {
  }

  /** A sheet with a stored pregap: data up to block 1000 of a file of 2000 raw sectors, and audio whose INDEX 00 stands
      at 1000 and whose INDEX 01 at 1150. */
  lemma PregapExample()
    ensures var files := [ImageFile(2, 4704000)];
      LaidOut(files, [Track(1, 0, 1000, 0, 0, 0, 0, 0, 2352, 0, Mode1, false, true),
                      Track(2, 1150, 2000, 1000, 2704800, 1000, 1150, 0, 2352, 0, Audio, true, true)], 2000)
  {
    var files := [ImageFile(2, 4704000)];
    var tracks := [Track(1, 0, 1000, 0, 0, 0, 0, 0, 2352, 0, Mode1, false, true),
                   Track(2, 1150, 2000, 1000, 2704800, 1000, 1150, 0, 2352, 0, Audio, true, true)];
    assert Placed(files, tracks, 0) && Placed(files, tracks, 1);
  }

  /** What the CUE sheet says of two tracks of one file: the stored pregap between INDEX 00 and INDEX 01, and a PREGAP
      that is not stored, come before the later one, and the earlier one ends where that pregap begins. */
  lemma TracksInOneFile(files: seq<ImageFile>, tracks: seq<Track>, blocks: u32, i: nat)
    requires LaidOut(files, tracks, blocks) && 0 < i < |tracks| && tracks[i - 1].file == tracks[i].file
    ensures var s, t := tracks[i - 1], tracks[i];
      && t.gap == s.end
      && (t.has0 ==> t.start - t.gap == t.index1 - t.index0 + t.pregap && s.end - s.start == t.index0 - s.index1
                     && t.index0 <= t.index1)
      && (!t.has0 ==> t.start - t.gap == t.pregap && s.end - s.start == t.index1 - s.index1)
      && t.offset == s.offset + (s.end - s.start) * s.sectorSize
                     + (if t.has0 then t.index1 - t.index0 else 0) * t.sectorSize
  {
    assert Placed(files, tracks, i) && Placed(files, tracks, i - 1);
  }

  /** A track that begins a file: everything before its INDEX 01 comes before it, and on the disc so does a PREGAP
      that is not stored, except for the very first track. */
  lemma TrackOpensFile(files: seq<ImageFile>, tracks: seq<Track>, blocks: u32, i: nat)
    requires LaidOut(files, tracks, blocks) && i < |tracks| && (i > 0 ==> tracks[i - 1].file != tracks[i].file)
    ensures var t := tracks[i];
      && t.offset == t.index1 * t.sectorSize
      && (i == 0 ==> t.gap == 0 && t.start == 0)
      && (i > 0 ==> t.gap == tracks[i - 1].end && t.start - t.gap == t.index1 + t.pregap)
  {
    assert Placed(files, tracks, i);
  }

  /** A track that ends a file takes the rest of it, in whole sectors, and at least one. */
  lemma TrackClosesFile(files: seq<ImageFile>, tracks: seq<Track>, blocks: u32, i: nat)
    requires LaidOut(files, tracks, blocks) && i < |tracks|
    requires i + 1 < |tracks| ==> tracks[i + 1].file != tracks[i].file
    ensures var t := tracks[i];
      && t.start < t.end && t.offset + (t.end - t.start) * t.sectorSize == files[t.file].size
      && (i + 1 == |tracks| ==> t.end == blocks)
  {
    assert Placed(files, tracks, i);
  }

  // ---------------------------------------------------------------- 32-bit arithmetic

  /** `add`: the sum, unless it leaves 32 bits. */
  method Add(a: u32, b: u32) returns (ok: bool, sum: u32)
    ensures ok <==> a + b < TWO32
    ensures ok ==> sum == a + b
  {
    sum := 0;
    ok := a <= 0xffff_ffff - b;
    if ok {
      sum := a + b;
    }
  }

  /** The division guards are exact bounds on the product. */
  lemma DivisionGuard(n: nat, room: nat, sectorSize: nat)
    requires sectorSize > 0
    ensures n <= room / sectorSize <==> Span(n, sectorSize) <= room
  {
    if n <= room / sectorSize {
      assert n * sectorSize <= room / sectorSize * sectorSize;
    } else {
      assert n * sectorSize >= (room / sectorSize + 1) * sectorSize;
    }
  }

  // ---------------------------------------------------------------- layout

  /** The first `i` tracks are placed; the last of them still lacks its end if its file goes on. */
  predicate Done(files: seq<ImageFile>, tracks: seq<Track>, i: nat)
    requires i <= |tracks|
  {
    && (forall j :: 0 <= j < i ==> Begins(files, tracks, j))
    && (forall j :: 0 <= j < i && (j + 1 < i || Closes(tracks, j)) ==> Ends(files, tracks, j))
  }

  /** Any layout of the same CUE sheet agrees with the tracks placed so far. */
  predicate Agrees(tracks: seq<Track>, p: seq<Track>, i: nat)
    requires i <= |tracks| == |p|
  {
    forall j :: 0 <= j < i ==>
      p[j] == tracks[j] || (j + 1 == i && !Closes(tracks, j) && p[j] == tracks[j].(end := p[j].end))
  }

  ghost predicate Solution(files: seq<ImageFile>, cue: seq<Track>, p: seq<Track>) {
    SameCue(cue, p) && IsLayout(files, p)
  }

  lemma CueAt(cue: seq<Track>, tracks: seq<Track>, p: seq<Track>, i: nat)
    requires SameCue(cue, tracks) && SameCue(cue, p) && i < |cue|
    ensures p[i] == tracks[i].(start := p[i].start, end := p[i].end, gap := p[i].gap, offset := p[i].offset)
    ensures Opens(p, i) == Opens(tracks, i) && Closes(p, i) == Closes(tracks, i)
  {
    assert p[i] == cue[i].(start := p[i].start, end := p[i].end, gap := p[i].gap, offset := p[i].offset);
    assert tracks[i] ==
      cue[i].(start := tracks[i].start, end := tracks[i].end, gap := tracks[i].gap, offset := tracks[i].offset);
    assert i > 0 ==> p[i - 1].file == cue[i - 1].file == tracks[i - 1].file;
    assert i + 1 < |cue| ==> p[i + 1].file == cue[i + 1].file == tracks[i + 1].file;
  }

  /** Ends the previous track where track `i` of the same file begins. */
  method EndPrevious(image: CDImage, i: nat, ghost cue: seq<Track>, ghost p: seq<Track>)
      returns (ok: bool, end: u32, bytes: u32)
    requires 0 < i < |image.tracks| && Parsed(image.files, image.tracks) && SameCue(cue, image.tracks)
    requires Done(image.files, image.tracks, i) && !Opens(image.tracks, i) && SoundCue(image.tracks[i])
    requires Solution(image.files, cue, p) ==> Agrees(image.tracks, p, i)
    modifies image`tracks
    ensures Parsed(image.files, image.tracks) && SameCue(cue, image.tracks)
    ensures ok ==> Done(image.files, image.tracks, i) && Ends(image.files, image.tracks, i - 1)
    ensures ok ==> end == image.tracks[i - 1].end
    ensures ok ==>
              bytes == image.tracks[i - 1].offset
                + Span(image.tracks[i - 1].end - image.tracks[i - 1].start, image.tracks[i - 1].sectorSize)
    ensures ok ==> bytes <= image.files[image.tracks[i].file].size
    ensures image.tracks[i] == old(image.tracks[i])
    ensures Solution(image.files, cue, p) ==> ok && Agrees(image.tracks, p, i) && p[i - 1] == image.tracks[i - 1]
  {
    hide Span, Begins, Ends, Done, SameCue, Solution, Agrees, Opens, Closes;
    ok, end, bytes := false, 0, 0;
    OpenTrack(image.files, image.tracks, cue, i);
    SolutionShape(image.files, cue, p);
    var prev := image.tracks[i - 1];
    var boundary := Boundary(image.tracks[i]);
    ghost var solvable := Solution(image.files, cue, p);
    if solvable {
      SolutionPrevious(image.files, cue, image.tracks, p, i);
    }
    if boundary < prev.index1 {
      return;
    }
    var length := boundary - prev.index1;
    var room := image.files[prev.file].size - prev.offset;
    DivisionGuard(length, room, prev.sectorSize);
    if length == 0 || length > room / prev.sectorSize {
      return;
    }
    bytes := prev.offset + Span(length, prev.sectorSize);
    var fits;
    fits, end := Add(prev.start, length);
    if !fits {
      return;
    }
    DoneEnding(image.files, image.tracks, cue, i, end);
    image.tracks := image.tracks[i - 1 := prev.(end := end)];
    ok := true;
  }

  /** What is known of the track before one that stays in its file. */
  lemma OpenTrack(files: seq<ImageFile>, tracks: seq<Track>, cue: seq<Track>, i: nat)
    requires 0 < i < |tracks| && Parsed(files, tracks) && SameCue(cue, tracks)
    requires Done(files, tracks, i) && !Opens(tracks, i)
    ensures tracks[i - 1].file == tracks[i].file < |files| && |cue| == |tracks| && !Closes(tracks, i - 1)
    ensures tracks[i - 1].offset <= files[tracks[i - 1].file].size && tracks[i - 1].sectorSize > 0
  {
    hide Span;
    assert Begins(files, tracks, i - 1);
  }

  lemma SolutionPrevious(files: seq<ImageFile>, cue: seq<Track>, tracks: seq<Track>, p: seq<Track>, i: nat)
    requires SameCue(cue, tracks) && Solution(files, cue, p) && 0 < i < |tracks| == |p|
    requires Agrees(tracks, p, i) && !Opens(tracks, i)
    ensures var prev := tracks[i - 1];
            && p[i - 1] == prev.(end := p[i - 1].end)
            && prev.start < p[i - 1].end == prev.start + (Boundary(tracks[i]) - prev.index1)
            && prev.file < |files|
            && prev.offset + Span(p[i - 1].end - prev.start, prev.sectorSize) <= files[prev.file].size
            && Agrees(tracks[i - 1 := p[i - 1]], p, i)
  {
    hide Span, Begins;
    CueAt(cue, tracks, p, i - 1);
    CueAt(cue, tracks, p, i);
    assert Placed(files, p, i - 1);
  }

  /** Setting the end of the last placed track disturbs nothing placed before. */
  lemma DoneEnding(files: seq<ImageFile>, tracks: seq<Track>, cue: seq<Track>, i: nat, end: u32)
    requires 0 < i < |tracks| && Done(files, tracks, i) && !Closes(tracks, i - 1)
    requires Parsed(files, tracks) && SameCue(cue, tracks)
    ensures var after := tracks[i - 1 := tracks[i - 1].(end := end)];
            && Done(files, after, i)
            && Parsed(files, after) && SameCue(cue, after)
            && (Ends(files, after, i - 1) <==>
                  && tracks[i - 1].file < |files|
                  && tracks[i - 1].start < end
                  && end - tracks[i - 1].start == Boundary(tracks[i]) - tracks[i - 1].index1
                  && tracks[i - 1].offset + Span(end - tracks[i - 1].start, tracks[i - 1].sectorSize) <=
                    files[tracks[i - 1].file].size)
  {
    hide Span;
    var after := tracks[i - 1 := tracks[i - 1].(end := end)];
    forall j | 0 <= j < i ensures Begins(files, after, j) {
      assert Begins(files, tracks, j);
    }
    forall j | 0 <= j < i && (j + 1 < i || Closes(after, j)) ensures Ends(files, after, j) {
      assert Ends(files, tracks, j);
    }
  }

  /** Places track `i` behind block `end` and byte `bytes` of its file. */
  method Begin(image: CDImage, i: nat, end: u32, bytes: u32, ghost cue: seq<Track>, ghost p: seq<Track>)
      returns (ok: bool)
    requires i < |image.tracks| && Parsed(image.files, image.tracks) && SameCue(cue, image.tracks)
    requires SoundCue(image.tracks[i]) && Done(image.files, image.tracks, i)
    requires i > 0 ==> Ends(image.files, image.tracks, i - 1)
    requires end == if i == 0 then 0 else image.tracks[i - 1].end
    requires bytes == if Opens(image.tracks, i) then 0 else
               image.tracks[i - 1].offset
                 + Span(image.tracks[i - 1].end - image.tracks[i - 1].start, image.tracks[i - 1].sectorSize)
    requires bytes <= image.files[image.tracks[i].file].size
    requires Solution(image.files, cue, p) ==> Agrees(image.tracks, p, i) && (i > 0 ==> p[i - 1] == image.tracks[i - 1])
    modifies image`tracks
    ensures Parsed(image.files, image.tracks) && SameCue(cue, image.tracks)
    ensures ok ==> Done(image.files, image.tracks, i) && Begins(image.files, image.tracks, i)
    ensures ok && i > 0 ==> Ends(image.files, image.tracks, i - 1)
    ensures ok ==> image.tracks == old(image.tracks)[i := image.tracks[i]]
    ensures Solution(image.files, cue, p) ==>
              ok && Agrees(image.tracks, p, i) && p[i] == image.tracks[i].(end := p[i].end)
    ensures Solution(image.files, cue, p) && i > 0 ==> p[i - 1] == image.tracks[i - 1]
  {
    hide Span, Begins, Ends, Done, SameCue, Solution, Agrees, Opens, Closes, Lead, Parsed, SoundCue;
    ok := false;
    SolutionShape(image.files, cue, p);
    CueShape(cue, image.tracks);
    FileSizes(image.files, image.tracks, i);
    var t := image.tracks[i];
    var gap := Lead(image.tracks, i);
    var room := image.files[t.file].size - bytes;
    DivisionGuard(gap, room, t.sectorSize);
    if Solution(image.files, cue, p) {
      SolutionBegin(image.files, cue, image.tracks, p, i);
    }
    if gap > room / t.sectorSize {
      return;
    }
    t := t.(offset := bytes + Span(gap, t.sectorSize), gap := end);
    if i == 0 {
      t := t.(start := 0); // the lead-in of the first track is outside the logical medium
    } else {
      var fits, total, start;
      fits, total := Add(gap, t.pregap);
      if !fits {
        return;
      }
      fits, start := Add(end, total);
      if !fits {
        return;
      }
      t := t.(start := start);
    }
    DoneBeginning(image.files, image.tracks, cue, i, t);
    if Solution(image.files, cue, p) {
      AgreesPlaced(image.tracks, p, i, t);
    }
    image.tracks := image.tracks[i := t];
    ok := true;
  }

  lemma SolutionBegin(files: seq<ImageFile>, cue: seq<Track>, tracks: seq<Track>, p: seq<Track>, i: nat)
    requires SameCue(cue, tracks) && Solution(files, cue, p) && i < |tracks| == |p| && SoundCue(tracks[i])
    requires i > 0 ==> p[i - 1] == tracks[i - 1]
    ensures var t, lead := tracks[i], Lead(tracks, i);
            && p[i] == t.(start := p[i].start, end := p[i].end, gap := p[i].gap, offset := p[i].offset)
            && p[i].gap == (if i == 0 then 0 else tracks[i - 1].end)
            && p[i].start == (if i == 0 then 0 else tracks[i - 1].end + lead + t.pregap)
            && p[i].offset == Span(lead, t.sectorSize)
                              + (if Opens(tracks, i) then 0
                                 else tracks[i - 1].offset
                                      + Span(tracks[i - 1].end - tracks[i - 1].start, tracks[i - 1].sectorSize))
            && t.file < |files| && p[i].offset <= files[t.file].size
  {
    hide Span, Ends;
    CueAt(cue, tracks, p, i);
    assert Placed(files, p, i);
  }

  lemma AgreesPlaced(tracks: seq<Track>, p: seq<Track>, i: nat, t: Track)
    requires i < |tracks| == |p| && Agrees(tracks, p, i)
    requires t == tracks[i].(start := t.start, end := t.end, gap := t.gap, offset := t.offset)
    ensures Agrees(tracks[i := t], p, i)
  {
  }

  /** Placing a track disturbs nothing placed before it. */
  lemma DoneBeginning(files: seq<ImageFile>, tracks: seq<Track>, cue: seq<Track>, i: nat, t: Track)
    requires i < |tracks| && Done(files, tracks, i) && Parsed(files, tracks) && SameCue(cue, tracks)
    requires i > 0 ==> Ends(files, tracks, i - 1)
    requires t == tracks[i].(start := t.start, end := t.end, gap := t.gap, offset := t.offset) && SoundCue(tracks[i])
    ensures var after := tracks[i := t];
            && Done(files, after, i) && Parsed(files, after) && SameCue(cue, after)
            && (i > 0 ==> Ends(files, after, i - 1))
            && (Begins(files, after, i) <==>
                  && t.file < |files|
                  && t.gap == (if i == 0 then 0 else tracks[i - 1].end)
                  && t.start == (if i == 0 then 0 else tracks[i - 1].end + Lead(tracks, i) + t.pregap)
                  && t.offset == Span(Lead(tracks, i), t.sectorSize)
                                 + (if Opens(tracks, i) then 0
                                    else tracks[i - 1].offset
                                         + Span(tracks[i - 1].end - tracks[i - 1].start, tracks[i - 1].sectorSize))
                  && t.offset <= files[t.file].size)
  {
    hide Span;
    var after := tracks[i := t];
    forall j | 0 <= j < i ensures Begins(files, after, j) {
      assert Begins(files, tracks, j);
    }
    forall j | 0 <= j < i && (j + 1 < i || Closes(after, j)) ensures Ends(files, after, j) {
      assert Ends(files, tracks, j);
    }
  }

  /** The last track of a file takes all the rest of it, in whole sectors. */
  method EndFile(image: CDImage, i: nat, ghost cue: seq<Track>, ghost p: seq<Track>) returns (ok: bool, end: u32)
    requires i < |image.tracks| && Parsed(image.files, image.tracks) && SameCue(cue, image.tracks)
    requires Done(image.files, image.tracks, i) && Begins(image.files, image.tracks, i) && Closes(image.tracks, i)
    requires i > 0 ==> Ends(image.files, image.tracks, i - 1)
    requires Solution(image.files, cue, p) ==> Agrees(image.tracks, p, i) && p[i] == image.tracks[i].(end := p[i].end)
    requires Solution(image.files, cue, p) && i > 0 ==> p[i - 1] == image.tracks[i - 1]
    modifies image`tracks
    ensures Parsed(image.files, image.tracks) && SameCue(cue, image.tracks)
    ensures ok ==> Done(image.files, image.tracks, i + 1) && end == image.tracks[i].end
    ensures Solution(image.files, cue, p) ==> ok && Agrees(image.tracks, p, i + 1)
  {
    hide Span, Begins, Ends, Done, Agrees, SameCue, Solution, Closes;
    ok, end := false, 0;
    var t := image.tracks[i];
    OffsetInFile(image.files, image.tracks, i);
    var length := image.files[t.file].size - t.offset;
    SolutionShape(image.files, cue, p);
    CueShape(cue, image.tracks);
    if Solution(image.files, cue, p) {
      SolutionEnd(image.files, cue, image.tracks, p, i);
    }
    if length > 0 && length % t.sectorSize == 0 {
      WholeSectors(length, length / t.sectorSize, t.sectorSize);
    }
    if length == 0 || length % t.sectorSize != 0 {
      return;
    }
    var fits;
    fits, end := Add(t.start, length / t.sectorSize);
    if !fits {
      return;
    }
    DoneEnd(image.files, image.tracks, cue, i, end);
    if Solution(image.files, cue, p) {
      AgreesEnd(image.tracks, p, i);
    }
    image.tracks := image.tracks[i := t.(end := end)];
    ok := true;
  }

  lemma OffsetInFile(files: seq<ImageFile>, tracks: seq<Track>, i: nat)
    requires i < |tracks| && Begins(files, tracks, i)
    ensures tracks[i].file < |files| && tracks[i].offset <= files[tracks[i].file].size
  {
  }

  lemma SolutionEnd(files: seq<ImageFile>, cue: seq<Track>, tracks: seq<Track>, p: seq<Track>, i: nat)
    requires SameCue(cue, tracks) && Parsed(files, tracks) && Solution(files, cue, p)
    requires i < |tracks| && Closes(tracks, i) && tracks[i].offset <= files[tracks[i].file].size
    requires |p| == |tracks| && p[i] == tracks[i].(end := p[i].end)
    ensures var length := files[tracks[i].file].size - tracks[i].offset;
            && length > 0 && length % tracks[i].sectorSize == 0
            && p[i].end == tracks[i].start + length / tracks[i].sectorSize
  {
    hide Begins;
    CueAt(cue, tracks, p, i);
    assert Placed(files, p, i);
    WholeSectors(files[tracks[i].file].size - tracks[i].offset, p[i].end - tracks[i].start, tracks[i].sectorSize);
  }

  lemma WholeSectors(length: nat, n: int, sectorSize: nat)
    requires sectorSize in {2048, 2336, 2352}
    ensures Span(n, sectorSize) == length <==> length % sectorSize == 0 && n == length / sectorSize
    ensures length > 0 && length % sectorSize == 0 ==> length / sectorSize > 0
  {
    if sectorSize == 2048 {
    } else if sectorSize == 2336 {
    } else {
    }
  }

  lemma DoneEnd(files: seq<ImageFile>, tracks: seq<Track>, cue: seq<Track>, i: nat, end: u32)
    requires i < |tracks| && Done(files, tracks, i) && Begins(files, tracks, i) && Closes(tracks, i)
    requires i > 0 ==> Ends(files, tracks, i - 1)
    requires Parsed(files, tracks) && SameCue(cue, tracks)
    requires tracks[i].start < end
    requires tracks[i].offset + Span(end - tracks[i].start, tracks[i].sectorSize) == files[tracks[i].file].size
    ensures var after := tracks[i := tracks[i].(end := end)];
            Parsed(files, after) && SameCue(cue, after) && Done(files, after, i + 1)
  {
    hide Span, Begins, Parsed, SameCue;
    var after := tracks[i := tracks[i].(end := end)];
    EndKeepsCue(files, tracks, cue, i, end);
    forall j | 0 <= j <= i ensures Begins(files, after, j) {
      EndKeepsBegin(files, tracks, i, end, j);
    }
    forall j | 0 <= j < i && (j + 1 < i || Closes(after, j)) ensures Ends(files, after, j) {
      assert Ends(files, tracks, j);
    }
  }

  /** The end of a track is no part of the CUE sheet, nor of where it or an earlier track begins. */
  lemma EndKeepsCue(files: seq<ImageFile>, tracks: seq<Track>, cue: seq<Track>, i: nat, end: u32)
    requires i < |tracks| && Parsed(files, tracks) && SameCue(cue, tracks)
    ensures var after := tracks[i := tracks[i].(end := end)]; Parsed(files, after) && SameCue(cue, after)
  {
  }

  lemma EndKeepsBegin(files: seq<ImageFile>, tracks: seq<Track>, i: nat, end: u32, j: nat)
    requires j <= i < |tracks| && Begins(files, tracks, j)
    ensures Begins(files, tracks[i := tracks[i].(end := end)], j)
  {
    hide Span;
  }

  lemma AgreesEnd(tracks: seq<Track>, p: seq<Track>, i: nat)
    requires i < |tracks| == |p| && Agrees(tracks, p, i)
    requires p[i] == tracks[i].(end := p[i].end) && (i > 0 ==> p[i - 1] == tracks[i - 1])
    ensures Agrees(tracks[i := tracks[i].(end := p[i].end)], p, i + 1)
    ensures !Closes(tracks, i) ==> Agrees(tracks, p, i + 1)
  {
  }

  lemma DoneOpen(files: seq<ImageFile>, tracks: seq<Track>, i: nat)
    requires i < |tracks| && Done(files, tracks, i) && Begins(files, tracks, i) && !Closes(tracks, i)
    requires i > 0 ==> Ends(files, tracks, i - 1)
    ensures Done(files, tracks, i + 1)
  {
    hide Span, Begins, Ends;
  }

  /** One turn of the layout loop. */
  method PlaceTrack(image: CDImage, i: nat, end: u32, ghost cue: seq<Track>, ghost p: seq<Track>)
      returns (ok: bool, end': u32)
    requires i < |image.tracks| && Parsed(image.files, image.tracks) && SameCue(cue, image.tracks)
    requires Done(image.files, image.tracks, i)
    requires i == 0 ==> end == 0
    requires i > 0 && Closes(image.tracks, i - 1) ==> end == image.tracks[i - 1].end
    requires Solution(image.files, cue, p) ==> |p| == |cue| && Agrees(image.tracks, p, i)
    modifies image`tracks
    ensures Parsed(image.files, image.tracks) && SameCue(cue, image.tracks) && |image.tracks| == |cue|
    ensures ok ==> Done(image.files, image.tracks, i + 1)
    ensures ok && Closes(image.tracks, i) ==> end' == image.tracks[i].end
    ensures Solution(image.files, cue, p) ==> ok && Agrees(image.tracks, p, i + 1)
  {
    hide Span, SameCue, Solution, Parsed, SoundCue, Begins, Ends, Done, Agrees, Closes;
    DoneFacts(image.files, image.tracks, i);
    SolutionShape(image.files, cue, p);
    CueShape(cue, image.tracks);
    SolutionCue(image.files, cue, image.tracks, p, i);
    FileSizes(image.files, image.tracks, i);
    if Solution(image.files, cue, p) {
      AgreesFacts(image.tracks, p, i);
    }
    ok, end' := false, end;
    if !SoundCue(image.tracks[i]) {
      return;
    }
    var bytes := 0;
    if !Opens(image.tracks, i) {
      ok, end', bytes := EndPrevious(image, i, cue, p);
      CueShape(cue, image.tracks);
      if !ok {
        return;
      }
    }
    ok := Begin(image, i, end', bytes, cue, p);
    CueShape(cue, image.tracks);
    if !ok {
      return;
    }
    if Closes(image.tracks, i) {
      ok, end' := EndFile(image, i, cue, p);
      CueShape(cue, image.tracks);
    } else {
      DoneOpen(image.files, image.tracks, i);
      if Solution(image.files, cue, p) {
        AgreesEnd(image.tracks, p, i);
      }
    }
  }

  /** A track that opens a file finds its predecessor complete. */
  lemma DoneFacts(files: seq<ImageFile>, tracks: seq<Track>, i: nat)
    requires i < |tracks| && Done(files, tracks, i)
    ensures i > 0 && Opens(tracks, i) ==> Closes(tracks, i - 1) && Ends(files, tracks, i - 1)
  {
  }

  lemma AgreesFacts(tracks: seq<Track>, p: seq<Track>, i: nat)
    requires i < |tracks| == |p| && Agrees(tracks, p, i)
    ensures i > 0 && Opens(tracks, i) ==> p[i - 1] == tracks[i - 1]
  {
  }

  lemma FileSizes(files: seq<ImageFile>, tracks: seq<Track>, i: nat)
    requires Parsed(files, tracks) && i < |tracks|
    ensures tracks[i].file < |files| && tracks[i].sectorSize > 0
  {
  }

  /** `layout`: accepts exactly the CUE sheets that have a layout on their files, and then stores the
      only one there is. The ghost `p` stands for any candidate layout. */
  method Layout(image: CDImage, ghost p: seq<Track>) returns (ok: bool)
    requires Parsed(image.files, image.tracks)
    modifies image`tracks, image`blocks
    ensures SameCue(old(image.tracks), image.tracks)
    ensures ok ==> LaidOut(image.files, image.tracks, image.blocks)
    ensures !ok ==> image.blocks == old(image.blocks) || image.blocks == 0
    ensures Solution(image.files, old(image.tracks), p) ==> ok && image.tracks == p
  {
    hide Span, Begins, Ends, SameCue, Solution, Parsed;
    ghost var cue := image.tracks;
    SameCueSelf(cue);
    SolutionShape(image.files, cue, p);
    ok := true;
    var end := 0;
    var i := 0;
    while i < |image.tracks|
      invariant i <= |image.tracks| == |cue| && Parsed(image.files, image.tracks) && SameCue(cue, image.tracks)
      invariant Done(image.files, image.tracks, i) && image.blocks == old(image.blocks)
      invariant i == 0 ==> end == 0
      invariant i > 0 && Closes(image.tracks, i - 1) ==> end == image.tracks[i - 1].end
      invariant Solution(image.files, cue, p) ==> Agrees(image.tracks, p, i)
      decreases |cue| - i
    {
      ok, end := PlaceTrack(image, i, end, cue, p);
      if !ok {
        return;
      }
      i := i + 1;
    }
    image.blocks := end;
    ok := end != 0;
    LastEnds(image.files, image.tracks);
  }

  lemma LastEnds(files: seq<ImageFile>, tracks: seq<Track>)
    requires Done(files, tracks, |tracks|)
    ensures |tracks| > 0 ==> tracks[|tracks| - 1].end > 0 && IsLayout(files, tracks)
  {
    if |tracks| > 0 {
      assert Ends(files, tracks, |tracks| - 1);
    }
  }

  /** Placement changes neither the order of the tracks nor what the CUE sheet says of them. */
  lemma CueShape(cue: seq<Track>, tracks: seq<Track>)
    requires SameCue(cue, tracks)
    ensures |cue| == |tracks|
    ensures forall i :: 0 <= i < |cue| ==>
      Opens(tracks, i) == Opens(cue, i) && Closes(tracks, i) == Closes(cue, i)
      && SoundCue(tracks[i]) == SoundCue(cue[i])
  {
    forall i | 0 <= i < |cue|
      ensures Opens(tracks, i) == Opens(cue, i) && Closes(tracks, i) == Closes(cue, i)
      ensures SoundCue(tracks[i]) == SoundCue(cue[i])
    {
      CueAt(cue, cue, tracks, i);
    }
  }

  lemma SameCueSelf(a: seq<Track>)
    ensures SameCue(a, a)
  {
  }

  lemma SolutionShape(files: seq<ImageFile>, cue: seq<Track>, p: seq<Track>)
    ensures Solution(files, cue, p) ==> |p| == |cue| > 0
  {
  }

  lemma SolutionCue(files: seq<ImageFile>, cue: seq<Track>, tracks: seq<Track>, p: seq<Track>, i: nat)
    requires SameCue(cue, tracks) && i < |cue|
    ensures Solution(files, cue, p) ==> |p| == |cue| && SoundCue(tracks[i])
  {
    if Solution(files, cue, p) {
      CueAt(cue, tracks, p, i);
      assert Placed(files, p, i);
    }
  }
}
