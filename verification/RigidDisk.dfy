/** The two blocks made up in front of a hardfile that has no partition table of its own. */
module RigidDisk {
  import opened Storage
  import opened FatChain
  import opened AtaGeometry
  import opened AtaDisk

  const PART: u32 := 0x5041_5254
  const NOTHING: u32 := 0xFFFF_FFFF
  /** Longwords the checksums cover. */
  const SUMMED: nat := 64

  /** A sector from its longwords. */
  function Bytes(l: seq<u32>): (s: Sector)
    requires |l| == 128
    ensures forall i :: 0 <= i < 128 ==> Long(s, i) == l[i]
  {
    var s: Sector := seq(512, p requires 0 <= p < 512 => Byte(l[p / 4], p % 4));
    assert forall i :: 0 <= i < 128 ==> Long(s, i) == l[i] by {
      forall i | 0 <= i < 128 ensures Long(s, i) == l[i] {
        Quarters(i);
        FourBytes(l[i]);
        assert s[4 * i] == Byte(l[i], 0) && s[4 * i + 1] == Byte(l[i], 1);
        assert s[4 * i + 2] == Byte(l[i], 2) && s[4 * i + 3] == Byte(l[i], 3);
      }
    }
    s
  }

  function Byte(v: u32, k: nat): byte
    requires k < 4
  {
    match k
    case 0 => v / 0x100_0000
    case 1 => v / 0x1_0000 % 256
    case 2 => v / 0x100 % 256
    case _ => v % 256
  }

  lemma Quarters(i: nat)
    ensures 4 * i / 4 == (4 * i + 1) / 4 == (4 * i + 2) / 4 == (4 * i + 3) / 4 == i
    ensures 4 * i % 4 == 0 && (4 * i + 1) % 4 == 1 && (4 * i + 2) % 4 == 2 && (4 * i + 3) % 4 == 3
  {
  }

  lemma FourBytes(v: u32)
    ensures v ==
              Byte(v, 0) as int * 0x100_0000 + Byte(v, 1) as int * 0x1_0000 + Byte(v, 2) as int * 0x100
                + Byte(v, 3) as int
  {
    BytesMake(v);
  }

  /** A block of these longwords, with its checksum. */
  function Block(l: seq<u32>): (s: Sector)
    requires |l| == 128 && l[COUNT] == SUMMED
    ensures forall i :: 0 <= i < 128 && i != CHECKSUM ==> Long(s, i) == l[i]
  {
    Bytes(Sealed(l))
  }

  function Zeros(): (l: seq<u32>)
    ensures |l| == 128 && forall i :: 0 <= i < 128 ==> l[i] == 0
  {
    seq<u32>(128, i => 0)
  }

  // ---------------------------------------------------------------- fields

  const ID: nat := 0
  const COUNT: nat := 1
  const HOST: nat := 3

  const BLOCK_BYTES: nat := 4
  const BAD_BLOCKS: nat := 6
  const PARTITIONS: nat := 7
  const FILE_SYSTEMS: nat := 8
  const DRIVE_INIT: nat := 9
  const CYLINDERS: nat := 16
  const TRACK_SECTORS: nat := 17
  const DISK_HEADS: nat := 18
  const INTERLEAVE: nat := 19
  const PARK: nat := 20
  const PRECOMPENSATION: nat := 24
  const REDUCED: nat := 25
  const STEP_RATE: nat := 26
  const LAST_BLOCK: nat := 33
  const FIRST_CYLINDER: nat := 34
  const LAST_CYLINDER: nat := 35
  const CYLINDER_BLOCKS: nat := 36
  const HIGHEST: nat := 38
  const VENDOR: nat := 40
  const PRODUCT: nat := 42

  const NEXT: nat := 4
  const NAME: nat := 9
  const TABLE_SIZE: nat := 32
  const BLOCK_LONGS: nat := 33
  const SURFACES: nat := 35
  const PER_BLOCK: nat := 36
  const PER_TRACK: nat := 37
  const RESERVED: nat := 38
  const LOW_CYLINDER: nat := 41
  const HIGH_CYLINDER: nat := 42
  const BUFFERS: nat := 43
  const MOST_BYTES: nat := 45
  const MEMORY: nat := 46
  const DOS_TYPE: nat := 48

  function Wrapped(v: int): u32 {
    v % TWO32
  }

  function DiskStart(l: seq<u32>): (r: seq<u32>)
    requires |l| == 128
    ensures |r| == 128
  {
    var m := l[ID := RDSK][COUNT := SUMMED][HOST := 7][BLOCK_BYTES := 512][FLAGS := 0x12];
    m[BAD_BLOCKS := NOTHING][PARTITIONS := 1][FILE_SYSTEMS := NOTHING][DRIVE_INIT := NOTHING]
  }

  function DiskRest(l: seq<u32>): (r: seq<u32>)
    requires |l| == 128
    ensures |r| == 128
  {
    var m := l[10 := NOTHING][11 := NOTHING][12 := NOTHING][13 := NOTHING][14 := NOTHING][15 := NOTHING];
    var n := m[VENDOR := 0x446F_206E][VENDOR + 1 := 0x6F74_2000];
    n[PRODUCT := 0x7265_7061][PRODUCT + 1 := 0x7274_6974][PRODUCT + 2 := 0x696F_6E21]
  }

  function DiskShape(l: seq<u32>, s: Shape): (r: seq<u32>)
    requires |l| == 128
    ensures |r| == 128
  {
    var c := Wrapped(s.cylinders);
    l[CYLINDERS := c][TRACK_SECTORS := Wrapped(s.sectors)][DISK_HEADS := Wrapped(s.heads)][INTERLEAVE := 1]
     [PARK := c][PRECOMPENSATION := c][REDUCED := c][STEP_RATE := 3]
  }

  function DiskPlaces(l: seq<u32>, s: Shape): (r: seq<u32>)
    requires |l| == 128
    ensures |r| == 128
  {
    l[LAST_BLOCK := 1][FIRST_CYLINDER := 1][LAST_CYLINDER := Wrapped(s.cylinders - 1)]
     [CYLINDER_BLOCKS := Wrapped(s.Cylinder())][HIGHEST := 1]
  }

  /** The rigid disk block, before its checksum. */
  function DiskLongs(s: Shape): (l: seq<u32>)
    ensures |l| == 128 && l[ID] == RDSK && l[COUNT] == SUMMED && l[PARTITIONS] == 1
    ensures l[CYLINDERS] == Wrapped(s.cylinders) && l[CYLINDER_BLOCKS] == Wrapped(s.Cylinder())
  {
    DiskPlaces(DiskShape(DiskRest(DiskStart(Zeros())), s), s)
  }

  function PartitionStart(l: seq<u32>): (r: seq<u32>)
    requires |l| == 128
    ensures |r| == 128
  {
    l[ID := PART][COUNT := SUMMED][HOST := 7][NEXT := NOTHING][FLAGS := 1][NAME := 0x0344_4830]
  }

  function PartitionShape(l: seq<u32>, s: Shape): (r: seq<u32>)
    requires |l| == 128
    ensures |r| == 128
  {
    l[TABLE_SIZE := 16][BLOCK_LONGS := 128][SURFACES := Wrapped(s.heads)][PER_BLOCK := 1]
     [PER_TRACK := Wrapped(s.sectors)][RESERVED := 2][LOW_CYLINDER := 1][HIGH_CYLINDER := Wrapped(s.cylinders - 1)]
  }

  function PartitionRest(l: seq<u32>): (r: seq<u32>)
    requires |l| == 128
    ensures |r| == 128
  {
    l[BUFFERS := 30][MOST_BYTES := 0x1_FFFE][MEMORY := 0x7FFF_FFFE][DOS_TYPE := 0x444F_5301]
  }

  /** The partition block, before its checksum. */
  function PartitionLongs(s: Shape): (l: seq<u32>)
    ensures |l| == 128 && l[ID] == PART && l[COUNT] == SUMMED && l[NEXT] == NOTHING
    ensures l[SURFACES] == Wrapped(s.heads) && l[PER_TRACK] == Wrapped(s.sectors)
    ensures l[LOW_CYLINDER] == 1 && l[HIGH_CYLINDER] == Wrapped(s.cylinders - 1)
  {
    PartitionRest(PartitionShape(PartitionStart(Zeros()), s))
  }

  /** Longwords of a rigid disk block that do not depend on the disk. */
  ghost predicate DiskWords(l: seq<u32>)
    requires |l| == 128
  {
    && l[0] == 0x5244_534B && l[1] == 64 && l[3] == 7 && l[4] == 512 && l[5] == 0x12 && l[7] == 1
    && (forall i :: i == 6 || 8 <= i < 16 ==> l[i] == 0xFFFF_FFFF)
    && l[19] == 1 && l[26] == 3 && l[33] == 1 && l[34] == 1 && l[38] == 1
    && l[40] == 0x446F_206E && l[41] == 0x6F74_2000
    && l[42] == 0x7265_7061 && l[43] == 0x7274_6974 && l[44] == 0x696F_6E21
    && (forall i :: i == 37 || i == 39 || 21 <= i < 24 || 27 <= i < 33 || 45 <= i < 128 ==> l[i] == 0)
  }

  /** The rigid disk block, longword by longword: name, counts, lists and texts, and the disk's shape. */
  lemma DiskFields(s: Shape)
    ensures DiskWords(DiskLongs(s))
    ensures var l := DiskLongs(s);
      && l[16] == l[20] == l[24] == l[25] == s.cylinders % 0x1_0000_0000
      && l[17] == s.sectors % 0x1_0000_0000 && l[18] == s.heads % 0x1_0000_0000
      && l[35] == (s.cylinders - 1) % 0x1_0000_0000 && l[36] == s.Cylinder() % 0x1_0000_0000
  {
    hide Shape.Cylinder;
  }

  /** The same of the partition block. */
  ghost predicate PartitionWords(l: seq<u32>)
    requires |l| == 128
  {
    && l[0] == 0x5041_5254 && l[1] == 64 && l[3] == 7 && l[4] == 0xFFFF_FFFF && l[5] == 1 && l[9] == 0x0344_4830
    && l[32] == 16 && l[33] == 128 && l[36] == 1 && l[38] == 2 && l[41] == 1
    && l[43] == 30 && l[45] == 0x1_FFFE && l[46] == 0x7FFF_FFFE && l[48] == 0x444F_5301
    && (forall i :: 6 <= i < 9 || 10 <= i < 32 || 39 <= i < 41 ==> l[i] == 0)
    && (forall i :: i == 34 || i == 44 || i == 47 || 49 <= i < 128 ==> l[i] == 0)
  }

  lemma PartitionFields(s: Shape)
    ensures PartitionWords(PartitionLongs(s))
    ensures var l := PartitionLongs(s);
      && l[35] == s.heads % 0x1_0000_0000 && l[37] == s.sectors % 0x1_0000_0000
      && l[42] == (s.cylinders - 1) % 0x1_0000_0000
  {
  }

  /** What the guest reads at block 0, and at block 1. */
  function DiskBlock(s: Shape): Sector {
    Block(DiskLongs(s))
  }

  function PartitionBlock(s: Shape): Sector {
    Block(PartitionLongs(s))
  }

  /** Both blocks are those longwords, the checksum excepted, most significant byte first: they begin with RDSK and
      PART. */
  lemma FrontFields(s: Shape)
    ensures forall i :: 0 <= i < 128 && i != 2 ==> Long(DiskBlock(s), i) == DiskLongs(s)[i]
    ensures forall i :: 0 <= i < 128 && i != 2 ==> Long(PartitionBlock(s), i) == PartitionLongs(s)[i]
    ensures DiskBlock(s)[..4] == [0x52, 0x44, 0x53, 0x4B] && PartitionBlock(s)[..4] == [0x50, 0x41, 0x52, 0x54]
  {
    hide Block, DiskLongs, PartitionLongs, Long, DiskWords, PartitionWords;
    NameBytes(DiskBlock(s), 0x52, 0x44, 0x53, 0x4B);
    NameBytes(PartitionBlock(s), 0x50, 0x41, 0x52, 0x54);
  }

  lemma NameBytes(s: Sector, a: byte, b: byte, c: byte, d: byte)
    requires Long(s, 0) == a as int * 0x100_0000 + b as int * 0x1_0000 + c as int * 0x100 + d as int
    ensures s[..4] == [a, b, c, d]
  {
  }

  /** Blocks a guest finds in front of the file; the rest of the first cylinder is blank. */
  function Front(s: Shape): (f: seq<Sector>)
    ensures |f| == 2
  {
    [DiskBlock(s), PartitionBlock(s)]
  }

  /** FakeRDB. */
  method FakeRdb(s: Shape, block: nat) returns (sector: Sector)
    ensures sector == if block < 2 then Front(s)[block] else Blank()
  {
    hide Sealed, DiskLongs, PartitionLongs, Bytes;
    if block == 0 {
      var l := FillDisk(s);
      RdbChecksum(l);
      return Bytes(l[..]);
    }
    if block == 1 {
      var l := FillPartition(s);
      RdbChecksum(l);
      return Bytes(l[..]);
    }
    return Blank();
  }

  method FillDisk(s: Shape) returns (l: array<u32>)
    ensures fresh(l) && l.Length == 128 && l[..] == DiskLongs(s)
  {
    hide DiskStart, DiskRest, DiskShape, DiskPlaces;
    l := new u32[128](_ => 0);
    assert l[..] == Zeros();
    FillStart(l);
    FillRest(l);
    FillShape(l, s);
    FillPlaces(l, s);
  }

  method FillStart(l: array<u32>)
    requires l.Length == 128
    modifies l
    ensures l[..] == DiskStart(old(l[..]))
  {
    l[ID], l[COUNT], l[HOST], l[BLOCK_BYTES], l[FLAGS] := RDSK, SUMMED, 7, 512, 0x12;
    l[BAD_BLOCKS], l[PARTITIONS], l[FILE_SYSTEMS], l[DRIVE_INIT] := NOTHING, 1, NOTHING, NOTHING;
  }

  method FillRest(l: array<u32>)
    requires l.Length == 128
    modifies l
    ensures l[..] == DiskRest(old(l[..]))
  {
    l[10], l[11], l[12], l[13], l[14], l[15] := NOTHING, NOTHING, NOTHING, NOTHING, NOTHING, NOTHING;
    l[VENDOR], l[VENDOR + 1] := 0x446F_206E, 0x6F74_2000;
    l[PRODUCT], l[PRODUCT + 1], l[PRODUCT + 2] := 0x7265_7061, 0x7274_6974, 0x696F_6E21;
  }

  method FillShape(l: array<u32>, s: Shape)
    requires l.Length == 128
    modifies l
    ensures l[..] == DiskShape(old(l[..]), s)
  {
    hide Wrapped;
    l[CYLINDERS], l[TRACK_SECTORS], l[DISK_HEADS], l[INTERLEAVE] := Wrapped(s.cylinders), Wrapped(s.sectors),
      Wrapped(s.heads), 1;
    l[PARK], l[PRECOMPENSATION], l[REDUCED], l[STEP_RATE] := l[CYLINDERS], l[CYLINDERS], l[CYLINDERS], 3;
  }

  method FillPlaces(l: array<u32>, s: Shape)
    requires l.Length == 128
    modifies l
    ensures l[..] == DiskPlaces(old(l[..]), s)
  {
    hide Wrapped;
    l[LAST_BLOCK], l[FIRST_CYLINDER], l[LAST_CYLINDER] := 1, 1, Wrapped(s.cylinders - 1);
    l[CYLINDER_BLOCKS], l[HIGHEST] := Wrapped(s.Cylinder()), 1;
  }

  method FillPartition(s: Shape) returns (l: array<u32>)
    ensures fresh(l) && l.Length == 128 && l[..] == PartitionLongs(s)
  {
    hide PartitionStart, PartitionShape, PartitionRest;
    l := new u32[128](_ => 0);
    assert l[..] == Zeros();
    FillPartitionStart(l);
    FillPartitionShape(l, s);
    FillPartitionRest(l);
  }

  method FillPartitionStart(l: array<u32>)
    requires l.Length == 128
    modifies l
    ensures l[..] == PartitionStart(old(l[..]))
  {
    l[ID], l[COUNT], l[HOST], l[NEXT], l[FLAGS], l[NAME] := PART, SUMMED, 7, NOTHING, 1, 0x0344_4830;
  }

  method FillPartitionShape(l: array<u32>, s: Shape)
    requires l.Length == 128
    modifies l
    ensures l[..] == PartitionShape(old(l[..]), s)
  {
    hide Wrapped;
    l[TABLE_SIZE], l[BLOCK_LONGS], l[SURFACES], l[PER_BLOCK] := 16, 128, Wrapped(s.heads), 1;
    l[PER_TRACK], l[RESERVED], l[LOW_CYLINDER], l[HIGH_CYLINDER] := Wrapped(s.sectors), 2, 1, Wrapped(s.cylinders - 1);
  }

  method FillPartitionRest(l: array<u32>)
    requires l.Length == 128
    modifies l
    ensures l[..] == PartitionRest(old(l[..]))
  {
    l[BUFFERS], l[MOST_BYTES], l[MEMORY], l[DOS_TYPE] := 30, 0x1_FFFE, 0x7FFF_FFFE, 0x444F_5301;
  }

  // ---------------------------------------------------------------- what a guest makes of them

  /** Sectors of a cylinder, as a partition block tells. */
  function CylinderOf(part: Sector): int {
    Times(Long(part, SURFACES), Long(part, PER_TRACK))
  }

  /** First block of the partition and the block behind its last one. */
  function Begins(part: Sector): int {
    Times(Long(part, LOW_CYLINDER), CylinderOf(part))
  }

  function Ends(part: Sector): int {
    Times(Long(part, HIGH_CYLINDER) + 1, CylinderOf(part))
  }

  /** A guest takes the block for what it is: name, size, and sum are right. */
  predicate Sound(block: Sector, id: u32) {
    Long(block, 0) == id && Long(block, 1) == 64 && SumLongs(block, 64) % 0x1_0000_0000 == 0
  }

  lemma BlockSound(l: seq<u32>)
    requires |l| == 128 && l[COUNT] == SUMMED
    ensures Sound(Block(l), l[ID])
  {
    hide Long, Bytes, Sealed;
    SumsAgree(Sealed(l), SUMMED);
  }

  /** Both blocks are sound, and the first leads to the second, with which the chain ends. */
  lemma FrontSound(s: Shape)
    ensures Sound(DiskBlock(s), RDSK) && Sound(PartitionBlock(s), PART)
    ensures Long(DiskBlock(s), PARTITIONS) == 1 && Long(PartitionBlock(s), NEXT) == NOTHING
  {
    hide Long, Block, DiskLongs, PartitionLongs, Sound;
    BlockSound(DiskLongs(s));
    BlockSound(PartitionLongs(s));
  }

  lemma {:induction false} SumsAgree(l: seq<u32>, n: nat)
    requires |l| == 128 && n <= 128
    ensures SumLongs(Bytes(l), n) == Sum(l, n)
  {
    hide Long, Bytes;
    if n > 0 {
      SumsAgree(l, n - 1);
    }
  }

  /** The partition begins with the first sector of the file, behind the cylinder in front of it, and ends with the
      disk's last cylinder. */
  lemma PartitionPlace(s: Shape)
    requires 0 < s.cylinders < TWO32 && s.heads < TWO32 && s.sectors < TWO32
    ensures Begins(PartitionBlock(s)) == s.Cylinder() && Ends(PartitionBlock(s)) == s.Total()
    ensures s.Cylinder() < TWO32 ==> Long(DiskBlock(s), CYLINDER_BLOCKS) == CylinderOf(PartitionBlock(s))
  {
    hide Long, Block, DiskLongs, PartitionLongs, Times;
    TimesNext(1, s.Cylinder());
    TimesMono(0, s.heads, s.sectors);
    TimesNext(0, s.sectors);
    var p := PartitionBlock(s);
    assert CylinderOf(p) == s.Cylinder();
    assert Long(p, HIGH_CYLINDER) + 1 == s.cylinders;
  }

  /** For a file of `sectors` in front of which a cylinder is put: the partition holds the whole file, and nothing but
      it if and only if the file is made of whole cylinders. Otherwise the guest is told of blocks beyond the end of
      the disk. */
  lemma PartitionHolds(s: Shape, sectors: nat)
    requires 0 < s.cylinders < TWO32 && 0 < s.heads < TWO32 && 0 < s.sectors < TWO32
    requires sectors + s.Cylinder() <= s.Total() < sectors + s.Cylinder() + s.Cylinder()
    ensures var p := PartitionBlock(s);
      && Begins(p) + sectors <= Ends(p) < Begins(p) + sectors + s.Cylinder()
      && (Ends(p) == sectors + s.Cylinder() <==> sectors % s.Cylinder() == 0)
  {
    hide Long, PartitionBlock, Times, Begins, Ends;
    PartitionPlace(s);
    var c := s.Cylinder();
    TimesPositive(s.heads, s.sectors);
    TimesNext(s.cylinders - 1, c);
    WholeTimes(s.cylinders - 1, c, sectors);
  }

  /** Block `k` of the partition is sector `k` of the file. */
  lemma PartitionShowsFile(d: Disk, card: seq<Sector>, s: Shape, k: nat)
    requires 0 < s.cylinders < TWO32 && 0 < s.heads < TWO32 && 0 < s.sectors < TWO32
    requires d.g.clusterSize > 0 && d.backing.InFile? && d.offset == -s.Cylinder()
    ensures Begins(PartitionBlock(s)) > 0
    ensures d.Seen(card, Begins(PartitionBlock(s)) + k) == FileSector(d.g, card, d.backing.start, k)
  {
    hide Long, PartitionBlock, Times, Begins, FileSector;
    PartitionPlace(s);
    TimesPositive(s.heads, s.sectors);
  }

  lemma TimesPositive(a: nat, b: nat)
    requires a > 0 && b > 0
    ensures Times(a, b) > 0
  {
  }

  lemma WholeTimes(n: nat, c: nat, m: nat)
    requires c > 0 && m <= Times(n, c) < m + c
    ensures Times(n, c) == m <==> m % c == 0
  {
    hide Times;
    var q := m / c;
    Divided(m, c);
    QuotientOf(n, 0, c);
    if m % c == 0 && q != n {
      if q < n {
        TimesMono(q + 1, n, c);
        TimesNext(q, c);
      } else {
        TimesMono(n + 1, q, c);
        TimesNext(n, c);
      }
    }
  }

  lemma Divided(m: nat, c: nat)
    requires c > 0
    ensures m == Times(m / c, c) + m % c
  {
  }
}
