/** ATA read and write commands of the emulated hard disk. */
module Ata {
  import opened Storage
  import opened FatChain
  import opened FatFile
  import opened SeekIndex
  import opened HardfileIndex
  import opened AtaGeometry
  import opened AtaDisk
  import opened RigidDisk

  datatype Type = File | SynthRdb | WholeCard | CardPartition(number: nat)

  /** How a command ends: with all data moved, refused before any, failed on the way, or given up because the guest
      reset or replaced it. */
  datatype Outcome = Done | Refused(error: nat) | Failed(error: nat) | Cancelled

  const ABRT: nat := 0x04
  const IDNF: nat := 0x10
  const UNC: nat := 0x40

  datatype Extent = Extent(startLba: u32, sectors: u32)

  /** Why an address and count are refused, or 0. */
  function RangeError(shape: Shape, total: nat, lba28: bool, a: Chs, count: nat): nat {
    if lba28 then ABRT
    else if !InShape(shape, a) || count < 1 || count > 256 then IDNF
    else if Chs2Lba(shape, a) + count > total then IDNF
    else 0
  }

  class Drive {
    const unit: nat
    const kind: Type
    const card: Card
    const hardfile: Hardfile
    var shape: Shape
    var sectorsPerBlock: nat
    var offset: int
    var totalSectors: u32
    /** The environment's promise that the guest neither cancels nor stalls. */
    var steady: bool

    constructor (unit: nat, kind: Type, card: Card, hardfile: Hardfile)
      ensures this.unit == unit && this.kind == kind && this.card == card && this.hardfile == hardfile
      ensures totalSectors == 0 && sectorsPerBlock == 0 && offset == 0 && shape == Shape(0, 0, 0) && !steady
    {
      this.unit, this.kind, this.card, this.hardfile := unit, kind, card, hardfile;
      shape, sectorsPerBlock, offset, totalSectors, steady := Shape(0, 0, 0), 0, 0, 0, false;
    }

    predicate IsFile() {
      kind.File? || kind.SynthRdb?
    }

    ghost function Disk(): Disk
      reads this`offset, this`shape, hardfile.file`startCluster, hardfile.file`size
    {
      AtaDisk.Disk.Disk(hardfile.volume.g,
                        if IsFile() then InFile(hardfile.file.startCluster, hardfile.file.size) else OnCard,
                        offset, if kind.SynthRdb? then Front(shape) else [], unit == 0)
    }

    /** The disk can be used: every guest sector is kept somewhere, and the seek index is built. */
    ghost predicate Open()
      reads this`offset, this`shape, this`totalSectors, hardfile, hardfile.index, hardfile.volume, card, hardfile.file
    {
      && hardfile.volume.card == card && |card.sectors| <= TWO32 && totalSectors > 0
      && Disk().Holds(card.sectors, totalSectors)
      && (kind.SynthRdb? <==> offset < 0)
      && (IsFile() ==> hardfile.Ready() && hardfile.indexSize != 0)
      && (!IsFile() ==> hardfile.file.size == 0)
    }

    /** The partition is one of the table's, begins where the offset says, and lies on the card. */
    predicate PartitionFits(partitions: seq<Extent>)
      requires kind.CardPartition?
      reads this`offset, card`sectors
    {
      && kind.number < 4 && kind.number < |partitions|
      && var p := partitions[kind.number];
        offset == p.startLba && p.startLba < |card.sectors| && 0 < p.sectors <= |card.sectors| - p.startLba
    }

    /** CacheHardfileCapacity: accepts a geometry and a place to keep the sectors, and records the capacity. */
    method CacheCapacity(partitions: seq<Extent>) returns (ok: bool)
      requires hardfile.volume.card == card && hardfile.volume.g.Valid() && |card.sectors| < TWO32
      requires IsFile() ==> hardfile.Ready() && hardfile.indexSize != 0
      requires !IsFile() ==> hardfile.file.size == 0
      requires kind.WholeCard? ==> offset == 0
      modifies this`totalSectors
      ensures ok ==> Open() && shape.cylinders > 0 && shape.heads > 0 && shape.sectors > 0
      ensures !ok ==> totalSectors == 0
      ensures kind.File? ==> (ok <==> shape.cylinders > 0 && shape.heads > 0 && shape.sectors > 0 && offset == 0)
      ensures kind.SynthRdb? ==>
                (ok <==> shape.cylinders > 0 && shape.heads > 0 && shape.sectors > 0 && offset == -shape.Cylinder()
                         && hardfile.file.size / 512 + shape.Cylinder() < TWO32)
      ensures kind.WholeCard? ==>
                (ok <==> shape.cylinders > 0 && shape.heads > 0 && shape.sectors > 0 && |card.sectors| > 0)
      ensures kind.CardPartition? ==>
                (ok <==> shape.cylinders > 0 && shape.heads > 0 && shape.sectors > 0 && PartitionFits(partitions))
      ensures kind.CardPartition? && ok ==>
                && kind.number < 4 && kind.number < |partitions|
                && var p := partitions[kind.number];
                  offset == p.startLba && 0 < p.sectors && p.startLba + p.sectors <= |card.sectors|
      ensures kind.CardPartition? && !ok && shape.cylinders > 0 && shape.heads > 0 && shape.sectors > 0 ==>
                kind.number >= 4 || kind.number >= |partitions|
                || var p := partitions[kind.number];
                  offset != p.startLba || p.sectors == 0 || p.startLba + p.sectors > |card.sectors|
      ensures kind.WholeCard? && ok ==> totalSectors == |card.sectors|
      ensures kind.CardPartition? && ok ==> totalSectors == partitions[kind.number].sectors
    {
      hide Front(), WellFormed(), Hardfile.Ready();
      ok := false;
      totalSectors := 0;
      if shape.cylinders == 0 || shape.heads == 0 || shape.sectors == 0 {
        return;
      }
      var capacity: u32;
      if IsFile() {
        OnlyFilesSized();
        capacity := FileCapacity();
      } else {
        capacity := CardCapacity(partitions);
      }
      totalSectors := capacity;
      ok := capacity != 0;
    }

    lemma OnlyFilesSized()
      requires hardfile.volume.g.Valid() && hardfile.Ready() && hardfile.indexSize != 0
      ensures WellFormed(hardfile.volume.g, hardfile.volume.card.sectors, hardfile.file.startCluster,
                hardfile.file.size)
      ensures hardfile.file.size >= 512
    {
    }

    /** Sectors of a file, with the synthetic cylinder in front of it; 0 if it cannot be used. */
    method FileCapacity() returns (capacity: u32)
      requires IsFile() && shape.heads > 0 && shape.sectors > 0 && hardfile.file.size >= 512
      ensures kind.File? ==> capacity == if offset == 0 then hardfile.file.size / 512 else 0
      ensures kind.SynthRdb? ==>
                capacity == if offset == -shape.Cylinder() && hardfile.file.size / 512 + shape.Cylinder() < TWO32
                            then hardfile.file.size / 512 + shape.Cylinder() else 0
      ensures shape.Cylinder() > 0
    {
      var prefix := 0;
      if kind.SynthRdb? {
        prefix := shape.heads * shape.sectors;
        if offset != -prefix {
          return 0;
        }
      }
      var sectors := hardfile.file.size / 512;
      if sectors == 0 || (kind.File? && offset != 0) || sectors > TWO32 - 1 - prefix {
        return 0;
      }
      capacity := sectors + prefix;
    }

    /** Sectors of the whole card or of a partition; 0 if it cannot be used. */
    method CardCapacity(partitions: seq<Extent>) returns (capacity: u32)
      requires !IsFile() && |card.sectors| < TWO32
      ensures kind.WholeCard? ==> capacity == |card.sectors|
      ensures kind.CardPartition? ==>
                capacity == if PartitionFits(partitions) then partitions[kind.number].sectors else 0
    {
      if kind.WholeCard? {
        return |card.sectors|;
      }
      if kind.number >= 4 || kind.number >= |partitions| {
        return 0;
      }
      var p := partitions[kind.number];
      if p.startLba >= |card.sectors| || offset != p.startLba || p.sectors > |card.sectors| - p.startLba {
        return 0;
      }
      return p.sectors;
    }

    /** ATA_CommandActive: the guest may cancel at any time. */
    method CommandActive() returns (active: bool)
      ensures steady ==> active
    {
      active := *;
      if steady {
        active := true;
      }
    }

    /** ATA_FailCurrent: an error is only reported to the command it belongs to. */
    method FailCurrent(error: nat) returns (r: Outcome)
      ensures r == Failed(error) || r == Cancelled
    {
      var active := CommandActive();
      r := if active then Failed(error) else Cancelled;
    }

    /** ATA_WaitBuffer: until the guest has taken or filled the buffer, the command is cancelled, or two seconds
        pass. */
    method WaitBuffer() returns (r: Outcome)
      ensures r == Done || r == Cancelled || r == Failed(ABRT)
      ensures steady ==> r == Done
    {
      var active := CommandActive();
      if !active {
        return Cancelled;
      }
      var ready: bool := *;
      if steady || ready {
        active := CommandActive();
        return if active then Done else Cancelled;
      }
      r := FailCurrent(ABRT);
    }

    /** What blocks a command before any data moves: `Done` when nothing does. */
    method Admit(lba28: bool, a: Chs, count: nat, multiple: bool) returns (r: Outcome)
      ensures r == Done || r == Cancelled || r == Refused(RefusalOf(lba28, a, count, multiple))
      ensures r == Done ==> RefusalOf(lba28, a, count, multiple) == 0
      ensures r == Done ==>
                InShape(shape, a) && 0 <= Chs2Lba(shape, a) && Chs2Lba(shape, a) + count <= totalSectors
                && 0 < count <= 256
      ensures r == Refused(RefusalOf(lba28, a, count, multiple)) ==> RefusalOf(lba28, a, count, multiple) != 0
      ensures r.Refused? ==> !Allowed(lba28, a, count, multiple)
      ensures r.Refused? ==>
                r.error == if lba28 || (multiple && sectorsPerBlock !in {1, 2, 4, 8, 16}) then 0x04 else 0x10
      ensures r.Done? ==> Allowed(lba28, a, count, multiple)
      ensures steady ==> r != Cancelled
    {
      AllowedExactly(lba28, a, count, multiple);
      var active := CommandActive();
      if !active {
        return Cancelled;
      }
      if multiple && !ValidMultipleSize(sectorsPerBlock) {
        return Refused(ABRT);
      }
      var error := RangeError(shape, totalSectors, lba28, a, count);
      if error == 0 {
        InRange(a, lba28, count);
      }
      r := if error != 0 then Refused(error) else Done;
    }

    /** The error a command is refused with, or 0. */
    function RefusalOf(lba28: bool, a: Chs, count: nat, multiple: bool): nat
      reads this`shape, this`totalSectors, this`sectorsPerBlock
    {
      if multiple && !ValidMultipleSize(sectorsPerBlock) then ABRT else RangeError(shape, totalSectors, lba28, a, count)
    }

    /** A command the disk serves: an address on it by cylinder, head and sector, with 1 to 256 sectors from there on,
        and a valid multiple mode if it needs one. */
    predicate Allowed(lba28: bool, a: Chs, count: nat, multiple: bool)
      reads this`shape, this`totalSectors, this`sectorsPerBlock
    {
      && !lba28 && (multiple ==> sectorsPerBlock in {1, 2, 4, 8, 16})
      && a.cylinder < shape.cylinders && a.head < shape.heads && 1 <= a.sector <= shape.sectors && 1 <= count <= 256
      && (a.cylinder * shape.heads + a.head) * shape.sectors + a.sector - 1 + count <= totalSectors
    }

    lemma AllowedExactly(lba28: bool, a: Chs, count: nat, multiple: bool)
      ensures RefusalOf(lba28, a, count, multiple) == 0 <==> Allowed(lba28, a, count, multiple)
      ensures RefusalOf(lba28, a, count, multiple) in {0, 0x10} ||
              (RefusalOf(lba28, a, count, multiple) == 0x04
               && (lba28 || (multiple && sectorsPerBlock !in {1, 2, 4, 8, 16})))
      ensures lba28 || (multiple && sectorsPerBlock !in {1, 2, 4, 8, 16}) ==>
                RefusalOf(lba28, a, count, multiple) == 0x04
      ensures Chs2Lba(shape, a) == (a.cylinder * shape.heads + a.head) * shape.sectors + a.sector - 1
    {
    }

    /** ATA_ReadSectors: the guest receives consecutive guest sectors, block by block. */
    method ReadSectors(lba28: bool, a: Chs, count: nat, multiple: bool)
        returns (r: Outcome, data: seq<Sector>, announced: seq<nat>)
      requires Open()
      modifies hardfile.volume`fatBuffer, hardfile.volume`fatIndex, hardfile.file`sector, hardfile.file`cluster
      ensures Open()
      ensures r.Refused? ==> r.error == RefusalOf(lba28, a, count, multiple) != 0 && data == [] && announced == []
      ensures RefusalOf(lba28, a, count, multiple) != 0 ==> r.Refused? || r == Cancelled
      ensures RefusalOf(lba28, a, count, multiple) == 0 ==>
                && |data| <= count && 0 <= Chs2Lba(shape, a) <= Chs2Lba(shape, a) + count <= totalSectors
                && data == Disk().Run(card.sectors, Chs2Lba(shape, a), |data|)
      ensures r.Done? ==>
                RefusalOf(lba28, a, count, multiple) == 0 && |data| == count
                && announced == Blocks(count, if multiple then sectorsPerBlock else 1)
      ensures r.Failed? ==> r.error in {0x40, 0x04}
      ensures steady && card.healthy && RefusalOf(lba28, a, count, multiple) == 0 ==> r.Done?
      ensures r.Refused? ==> !Allowed(lba28, a, count, multiple)
      ensures r.Refused? ==>
                r.error == if lba28 || (multiple && sectorsPerBlock !in {1, 2, 4, 8, 16}) then 0x04 else 0x10
      ensures steady && card.healthy ==> (r.Done? <==> Allowed(lba28, a, count, multiple))
      ensures r.Done? ==>
                |data| == count
                && var first := (a.cylinder * shape.heads + a.head) * shape.sectors + a.sector - 1;
                  forall i :: 0 <= i < count ==> data[i] == Disk().Seen(card.sectors, first + i)
    {
      hide Open(), Chs2Lba(), Blocks(), RangeError, Disk(), Allowed, InShape;
      AllowedExactly(lba28, a, count, multiple);
      data, announced := [], [];
      if RangeError(shape, totalSectors, lba28, a, count) == 0 {
        InRange(a, lba28, count);
      }
      OpenValid();
      r := Admit(lba28, a, count, multiple);
      if r != Done {
        return;
      }
      var lba := Chs2Lba(shape, a);
      r, data, announced := ReadBlocks(lba, count, if multiple then sectorsPerBlock else 1);
    }

    lemma InRange(a: Chs, lba28: bool, count: nat)
      requires RangeError(shape, totalSectors, lba28, a, count) == 0
      ensures 0 <= Chs2Lba(shape, a) && Chs2Lba(shape, a) + count <= totalSectors && 0 < count <= 256
    {
      LbaInShape(shape, a);
    }

    /** The transfer loop of a read. */
    method ReadBlocks(first: nat, count: nat, size: nat) returns (r: Outcome, data: seq<Sector>, announced: seq<nat>)
      requires Open() && size > 0 && first + count <= totalSectors
      modifies hardfile.volume`fatBuffer, hardfile.volume`fatIndex, hardfile.file`sector, hardfile.file`cluster
      ensures Open()
      ensures |data| <= count && data == Disk().Run(card.sectors, first, |data|)
      ensures r == Done || r == Cancelled || r == Failed(UNC) || r == Failed(ABRT)
      ensures r.Done? ==> |data| == count && announced == Blocks(count, size)
      ensures steady && card.healthy ==> r.Done?
    {
      hide Open(), Blocks(), Disk();
      OpenValid();
      data, announced := [], [];
      var lba, left: nat := first, count;
      while left > 0
        invariant Open() && left <= count && lba == first + (count - left) && |data| == count - left
        invariant data == Disk().Run(card.sectors, first, |data|)
        invariant announced + Blocks(left, size) == Blocks(count, size)
      {
        var block := if left > size then size else left;
        BlocksStep(announced, left, size, block);
        var active := CommandActive();
        if !active {
          return Cancelled, data, announced;
        }
        r := WaitBuffer();
        if r != Done {
          return;
        }
        announced := announced + [block];
        var chunk;
        r, chunk := ReadBlock(lba, block);
        RunJoin(Disk(), card.sectors, first, |data|, |chunk|);
        data := data + chunk;
        if r != Done {
          return;
        }
        lba, left := lba + block, left - block;
      }
      BlocksEnd(announced, size);
      r := Done;
    }

    lemma OpenValid()
      requires Open()
      ensures Disk().g.clusterSize > 0 && Disk().g == hardfile.volume.g
    {
    }

    /** One block: made-up sectors first, then sectors of the backing store. */
    method ReadBlock(first: nat, count: nat) returns (r: Outcome, data: seq<Sector>)
      requires Open() && 0 < count && first + count <= totalSectors
      modifies hardfile.volume`fatBuffer, hardfile.volume`fatIndex, hardfile.file`sector, hardfile.file`cluster
      ensures Open()
      ensures |data| <= count && data == Disk().Run(card.sectors, first, |data|)
      ensures r == Done || r == Cancelled || r == Failed(UNC)
      ensures r.Done? ==> |data| == count
      ensures steady && card.healthy ==> r.Done?
    {
      if IsFile() {
        if hardfile.file.size == 0 {
          r := FailCurrent(UNC);
          return r, [];
        }
        r, data := ReadFileBlock(first, count);
      } else {
        r, data := ReadCardBlock(first, count);
      }
    }

    method ReadCardBlock(first: nat, count: nat) returns (r: Outcome, data: seq<Sector>)
      requires Open() && !IsFile() && 0 < count && first + count <= totalSectors
      ensures |data| <= count && data == Disk().Run(card.sectors, first, |data|)
      ensures r == Done || r == Cancelled || r == Failed(UNC)
      ensures r.Done? ==> |data| == count
      ensures steady && card.healthy ==> r.Done?
    {
      var active := CommandActive();
      if !active {
        return Cancelled, [];
      }
      var ok;
      ok, data := card.ReadMultiple(first + offset, count);
      r := Done;
      if |data| <= count {
        RunOfCard(Disk(), card.sectors, first, |data|);
      }
      if !ok {
        r := FailCurrent(UNC);
      }
    }

    method ReadFileBlock(first: nat, count: nat) returns (r: Outcome, data: seq<Sector>)
      requires Open() && IsFile() && 0 < count && first + count <= totalSectors
      modifies hardfile.volume`fatBuffer, hardfile.volume`fatIndex, hardfile.file`sector, hardfile.file`cluster
      ensures Open()
      ensures |data| <= count && data == Disk().Run(card.sectors, first, |data|)
      ensures r == Done || r == Cancelled || r == Failed(UNC)
      ensures r.Done? ==> |data| == count
      ensures steady && card.healthy ==> r.Done?
    {
      hide Open(), Disk(), AtaDisk.Disk.Seen(), Hardfile.Ready();
      OpenFile();
      data := [];
      var blk: nat, lba: nat := count, first;
      while (blk != 0 && lba + offset < 0) || (unit == 0 && kind.File? && lba == 0)
        invariant Open() && blk <= count && lba == first + (count - blk) && |data| == count - blk
        invariant data == Disk().Run(card.sectors, first, |data|)
        decreases blk
      {
        var active := CommandActive();
        if !active {
          return Cancelled, data;
        }
        var sector;
        r, sector := SpecialSector(lba);
        if r != Done {
          return;
        }
        active := CommandActive();
        if !active {
          return Cancelled, data;
        }
        RunOne(Disk(), card.sectors, first, |data|, sector);
        data := data + [sector];
        lba, blk := lba + 1, blk - 1;
      }
      if blk != 0 {
        var chunk;
        r, chunk := ReadFileRun(lba, blk);
        RunJoin(Disk(), card.sectors, first, |data|, |chunk|);
        data := data + chunk;
      } else {
        r := Done;
      }
    }

    lemma OpenFile()
      requires Open()
      ensures Disk().g.clusterSize > 0 && Disk().g == hardfile.volume.g && Disk().offset == offset
      ensures kind.File? ==> offset == 0
      ensures IsFile() ==>
                hardfile.Ready() && hardfile.indexSize != 0 && totalSectors + offset == hardfile.file.size / 512
      ensures if IsFile() then hardfile.file.size >= 512 else hardfile.file.size == 0
      ensures hardfile.volume.card == card
    {
    }

    /** A sector that is not handed through: one of the made-up blocks, or block 0 of the boot disk. */
    method SpecialSector(lba: nat) returns (r: Outcome, sector: Sector)
      requires Open() && IsFile() && lba < totalSectors && (lba + offset < 0 || (unit == 0 && kind.File? && lba == 0))
      modifies hardfile.volume`fatBuffer, hardfile.volume`fatIndex, hardfile.file`sector, hardfile.file`cluster
      ensures Open()
      ensures r == Done ==> sector == Disk().Seen(card.sectors, lba)
      ensures r == Done || r == Cancelled || r == Failed(UNC)
      ensures card.healthy ==> r.Done?
    {
      hide Front(), AtaDisk.Disk.Holds(), Hardfile.Indexed(), BootFlags(), FileSector();
      OpenFile();
      sector, r := Blank(), Done;
      if kind.File? {
        var ok, d;
        ghost var links;
        ok, links := hardfile.HardFileSeek(lba + offset);
        if ok {
          SizeSectors(hardfile.file.size);
          ok, d := hardfile.volume.ReadEx(hardfile.file, 1, true);
        }
        if !ok {
          r := FailCurrent(UNC);
          return;
        }
        sector := BootFlags(d[0]);
      } else {
        sector := FakeRdb(shape, lba);
      }
    }

    /** Reads where the file stands. */
    method ReadFrom(lba: nat, count: nat) returns (ok: bool, data: seq<Sector>)
      requires Open() && IsFile() && 0 < count && lba + offset >= 0 && lba + count <= totalSectors && StandsAt(lba)
      requires unit == 0 && kind.File? ==> lba > 0
      modifies hardfile.volume`fatBuffer, hardfile.volume`fatIndex, hardfile.file`sector, hardfile.file`cluster
      ensures Open() && |data| <= count && data == Disk().Run(card.sectors, lba, |data|)
      ensures ok ==> |data| == count
      ensures card.healthy ==> ok
    {
      hide Front(), AtaDisk.Disk.Holds(), AtaDisk.Disk.Seen(), Hardfile.Indexed(), FileSector();
      OpenFile();
      SizeSectors(hardfile.file.size);
      ok, data := hardfile.volume.ReadEx(hardfile.file, count, true);
      RunOfFile(Disk(), card.sectors, lba, |data|);
    }

    /** Sectors straight from the file. */
    method ReadFileRun(lba: nat, count: nat) returns (r: Outcome, data: seq<Sector>)
      requires Open() && IsFile() && 0 < count && lba + offset >= 0 && lba + count <= totalSectors
      requires unit == 0 && kind.File? ==> lba > 0
      modifies hardfile.volume`fatBuffer, hardfile.volume`fatIndex, hardfile.file`sector, hardfile.file`cluster
      ensures Open()
      ensures |data| <= count && data == Disk().Run(card.sectors, lba, |data|)
      ensures r == Done || r == Cancelled || r == Failed(UNC)
      ensures r.Done? ==> |data| == count
      ensures steady && card.healthy ==> r.Done?
    {
      hide Open(), Disk();
      OpenFile();
      data := [];
      var active := CommandActive();
      if !active {
        return Cancelled, [];
      }
      var ok := Position(lba);
      if !ok {
        r := FailCurrent(UNC);
        return;
      }
      active := CommandActive();
      if !active {
        return Cancelled, [];
      }
      ok, data := ReadFrom(lba, count);
      r := Done;
      if !ok {
        r := FailCurrent(UNC);
      }
    }

    /** A file that refuses writes. */
    predicate Locked()
      reads hardfile.file`readOnly
    {
      IsFile() && hardfile.file.readOnly
    }

    /** ATA_WriteSectors: `input` is what the guest sends; `written` sectors of it were taken, the block after them
        may be left torn by a failed write, and the task file ends on the address of the last sector. */
    method WriteSectors(lba28: bool, a: Chs, count: nat, multiple: bool, input: seq<Sector>)
      returns (r: Outcome, announced: seq<nat>, written: nat, last: Chs, ghost torn: int)
      requires Open() && |input| == count
      modifies card`sectors, hardfile.volume`fatBuffer, hardfile.volume`fatIndex, hardfile.file`sector,
               hardfile.file`cluster
      ensures Open()
      ensures r.Refused? ==> r.error == RefusalOf(lba28, a, count, multiple) != 0
      ensures RefusalOf(lba28, a, count, multiple) != 0 ==>
                (r.Refused? || r == Cancelled) && card.sectors == old(card.sectors)
      ensures RefusalOf(lba28, a, count, multiple) == 0 ==>
                && written <= count && 0 <= Chs2Lba(shape, a) <= Chs2Lba(shape, a) + count <= totalSectors
                && Stored(Disk(), old(card.sectors), card.sectors, totalSectors, Chs2Lba(shape, a), input[..written],
                  torn)
      ensures r.Done? ==>
                RefusalOf(lba28, a, count, multiple) == 0 && written == count && torn == -1
                && announced == Blocks(count, if multiple then sectorsPerBlock else 1)
      ensures !IsFile() && RefusalOf(lba28, a, count, multiple) == 0 && old(hardfile.volume.Valid()) ==>
                (hardfile.volume.Valid() <==> CacheSpared(Chs2Lba(shape, a), input[..written], torn))
      ensures r.Done? || r.Failed? ==> InCylinder(shape, last) && Chs2Lba(shape, last) == Chs2Lba(shape, a) + count - 1
      ensures r.Failed? ==> r.error == ABRT
      ensures steady && card.healthy && !Locked() && RefusalOf(lba28, a, count, multiple) == 0 ==> r.Done?
      ensures r.Refused? ==> !Allowed(lba28, a, count, multiple)
      ensures r.Refused? ==>
                r.error == if lba28 || (multiple && sectorsPerBlock !in {1, 2, 4, 8, 16}) then 0x04 else 0x10
      ensures steady && card.healthy && !(IsFile() && hardfile.file.readOnly) ==>
                (r.Done? <==> Allowed(lba28, a, count, multiple))
    {
      hide Open(), Chs2Lba(), Blocks(), Stored(), Disk(), CacheSpared(), Volume.Valid(), RangeError;
      AllowedExactly(lba28, a, count, multiple);
      announced, written, last, torn := [], 0, a, -1;
      OpenValid();
      OpenFile();
      if RangeError(shape, totalSectors, lba28, a, count) == 0 {
        InRange(a, lba28, count);
        NothingSpared(Chs2Lba(shape, a), input[..0]);
        StoredNone(Disk(), card.sectors, totalSectors, Chs2Lba(shape, a));
      }
      r := Admit(lba28, a, count, multiple);
      if r != Done {
        return;
      }
      var lba := Chs2Lba(shape, a);
      last := AdvanceChs(shape, a, count);
      var active := CommandActive();
      if !active {
        return Cancelled, announced, written, last, torn;
      }
      if hardfile.file.size != 0 {
        var ok := Position(lba);
        if !ok {
          r := FailCurrent(ABRT);
          return;
        }
      }
      r, announced, written, torn := StoreAll(lba, count, if multiple then sectorsPerBlock else 1, input);
    }

    /** The transfer loop, and what it does to the FAT cache. */
    method StoreAll(first: nat, count: nat, size: nat, input: seq<Sector>)
      returns (r: Outcome, announced: seq<nat>, written: nat, ghost torn: int)
      requires Open() && size > 0 && 0 < count && first + count <= totalSectors && |input| == count && StandsAt(first)
      modifies card`sectors, hardfile.volume`fatBuffer, hardfile.volume`fatIndex, hardfile.file`sector,
               hardfile.file`cluster
      ensures Open() && written <= count
      ensures Disk().g.clusterSize > 0
      ensures Stored(Disk(), old(card.sectors), card.sectors, totalSectors, first, input[..written], torn)
      ensures !IsFile() && old(hardfile.volume.Valid()) ==>
                (hardfile.volume.Valid() <==> CacheSpared(first, input[..written], torn))
      ensures r == Done || r == Cancelled || r == Failed(ABRT)
      ensures r.Done? ==> written == count && torn == -1 && announced == Blocks(count, size)
      ensures steady && card.healthy && !Locked() ==> r.Done?
    {
      hide Open(), Blocks(), Stored(), Disk(), StandsAt(), CacheSpared();
      ghost var before, valid := card.sectors, hardfile.volume.Valid();
      OpenFile();
      r, announced, written, torn := WriteBlocks(first, count, size, input);
      if !IsFile() && valid {
        CacheAfter(before, first, input[..written], torn);
      }
    }

    lemma NothingSpared(first: nat, none: seq<Sector>)
      requires |none| == 0
      ensures CacheSpared(first, none, -1)
    {
    }

    /** What a raw write does to the FAT cache. */
    lemma CacheAfter(before: seq<Sector>, first: nat, data: seq<Sector>, torn: int)
      requires Open() && !IsFile() && first + |data| <= totalSectors && Cached(before)
      requires Disk().g.clusterSize > 0 && Stored(Disk(), before, card.sectors, totalSectors, first, data, torn)
      ensures hardfile.volume.Valid() <==> CacheSpared(first, data, torn)
    {
      var v := hardfile.volume;
      if v.fatIndex >= 0 {
        var x := v.g.fatStart + v.fatIndex;
        var k := x - offset - first;
        if 0 <= k < |data| {
          assert Disk().Kept(card.sectors, first + k) == data[k];
        } else if !(k == |data| && torn != -1) {
          assert !KeepsOne(Disk(), before, first, |data| + (if torn == -1 then 0 else 1), x);
        }
      }
    }

    /** The cached FAT sector, if any, was that of the card. */
    ghost predicate Cached(before: seq<Sector>)
      reads hardfile.volume
    {
      var v := hardfile.volume;
      && v.g.Valid()
      && (v.fatIndex == -1 ||
          (0 <= v.fatIndex < v.g.fatSize && v.g.fatStart + v.fatIndex < |before|
            && v.fatBuffer == before[v.g.fatStart + v.fatIndex]))
    }

    /** A whole-card or partition write leaves the cached FAT sector alone: it lies outside what was written, or is
        written with its own contents. A torn sector may hold anything. */
    ghost predicate CacheSpared(first: nat, data: seq<Sector>, torn: int)
      reads this`offset, hardfile.volume`fatIndex, hardfile.volume`fatBuffer, card`sectors
    {
      var v := hardfile.volume;
      v.fatIndex < 0 ||
      var k := v.g.fatStart + v.fatIndex - offset - first;
      if 0 <= k < |data| then data[k] == v.fatBuffer
      else k == |data| && torn != -1 ==> SectorAt(card.sectors, v.g.fatStart + v.fatIndex) == v.fatBuffer
    }

    /** Where the file has to stand before block `k` is written: at its sector, or at the beginning ahead of made-up
        blocks. */
    ghost predicate StandsAt(k: nat)
      reads this`offset, hardfile.file`sector
    {
      IsFile() ==> hardfile.file.sector == Most(k + offset, 0)
    }

    /** The seek before a write. */
    method Position(lba: nat) returns (ok: bool)
      requires Open() && lba < totalSectors && hardfile.file.size != 0
      modifies hardfile.volume`fatBuffer, hardfile.volume`fatIndex, hardfile.file`sector, hardfile.file`cluster
      ensures Open() && (ok ==> StandsAt(lba))
      ensures card.healthy ==> ok
    {
      hide Front(), AtaDisk.Disk.Holds(), Hardfile.Indexed(), Hardfile.Stride, StrideLinks, Disk();
      OpenFile();
      ghost var links;
      ok, links := hardfile.HardFileSeek(Most(lba + offset, 0));
    }

    /** The transfer loop of a write. */
    method WriteBlocks(first: nat, count: nat, size: nat, input: seq<Sector>)
      returns (r: Outcome, announced: seq<nat>, written: nat, ghost torn: int)
      requires Open() && size > 0 && 0 < count && first + count <= totalSectors && |input| == count && StandsAt(first)
      modifies card`sectors, hardfile.volume`fatBuffer, hardfile.volume`fatIndex, hardfile.file`sector,
               hardfile.file`cluster
      ensures !IsFile() ==> hardfile.volume.fatIndex == old(hardfile.volume.fatIndex)
      ensures !IsFile() ==> hardfile.volume.fatBuffer == old(hardfile.volume.fatBuffer)
      ensures Open() && written <= count
      ensures Disk().g.clusterSize > 0
      ensures Stored(Disk(), old(card.sectors), card.sectors, totalSectors, first, input[..written], torn)
      ensures r == Done || r == Cancelled || r == Failed(ABRT)
      ensures r.Done? ==> written == count && torn == -1 && announced == Blocks(count, size)
      ensures steady && card.healthy && !Locked() ==> r.Done?
    {
      hide Open(), Blocks(), Stored(), Disk(), StandsAt();
      announced, written, torn := [], 0, -1;
      OpenValid();
      StoredNone(Disk(), card.sectors, totalSectors, first);
      while written < count
        invariant Open() && written <= count && torn == -1 && (written < count ==> StandsAt(first + written))
        invariant !IsFile() ==> hardfile.volume.fatIndex == old(hardfile.volume.fatIndex)
        invariant !IsFile() ==> hardfile.volume.fatBuffer == old(hardfile.volume.fatBuffer)
        invariant Disk().g.clusterSize > 0
        invariant Stored(Disk(), old(card.sectors), card.sectors, totalSectors, first, input[..written], -1)
        invariant announced + Blocks(count - written, size) == Blocks(count, size)
        decreases count - written
      {
        var left: nat := count - written;
        var block := if left > size then size else left;
        BlocksStep(announced, left, size, block);
        r, written, torn := WriteBlock(first, count, written, block, input, old(card.sectors));
        if r != Done {
          return;
        }
        var active := CommandActive();
        if !active {
          return Cancelled, announced, written, torn;
        }
        announced := announced + [block];
        assert count - written == left - block;
      }
      BlocksEnd(announced, size);
      r := Done;
    }

    /** One block of a write, sector by sector. */
    method WriteBlock(first: nat, count: nat, done: nat, block: nat, input: seq<Sector>, ghost before: seq<Sector>)
      returns (r: Outcome, written: nat, ghost torn: int)
      requires Open() && first + count <= totalSectors && |input| == count && done + block <= count
      requires done < count ==> StandsAt(first + done)
      requires Disk().g.clusterSize > 0 && Stored(Disk(), before, card.sectors, totalSectors, first, input[..done], -1)
      modifies card`sectors, hardfile.volume`fatBuffer, hardfile.volume`fatIndex, hardfile.file`sector,
               hardfile.file`cluster
      ensures !IsFile() ==> hardfile.volume.fatIndex == old(hardfile.volume.fatIndex)
      ensures !IsFile() ==> hardfile.volume.fatBuffer == old(hardfile.volume.fatBuffer)
      ensures Open() && done <= written <= done + block && (written < count && r == Done ==> StandsAt(first + written))
      ensures Disk().g.clusterSize > 0
      ensures Stored(Disk(), before, card.sectors, totalSectors, first, input[..written], torn)
      ensures r == Done || r == Cancelled || r == Failed(ABRT)
      ensures r.Done? ==> written == done + block && torn == -1
      ensures steady && card.healthy && !Locked() ==> r.Done?
    {
      hide Open(), Stored(), Disk(), StandsAt();
      r, written, torn := Done, done, -1;
      while written < done + block
        invariant Open() && done <= written <= done + block && r == Done && torn == -1
        invariant !IsFile() ==> hardfile.volume.fatIndex == old(hardfile.volume.fatIndex)
        invariant !IsFile() ==> hardfile.volume.fatBuffer == old(hardfile.volume.fatBuffer)
        invariant written < count ==> StandsAt(first + written)
        invariant Disk().g.clusterSize > 0
        invariant Stored(Disk(), before, card.sectors, totalSectors, first, input[..written], -1)
      {
        r := WaitBuffer();
        if r != Done {
          return;
        }
        var active := CommandActive();
        if !active {
          return Cancelled, written, torn;
        }
        var stored;
        assert input[..written + 1] == input[..written] + [input[written]];
        r, stored, torn := WriteOne(first, first + written, input[..written], input[written], written + 1 < count,
          before);
        if stored {
          written := written + 1;
        }
        if r != Done {
          return;
        }
      }
    }

    /** One sector: into the file, onto the card, or nowhere. */
    method WriteOne(ghost first: nat, k: nat, ghost sent: seq<Sector>, data: Sector, more: bool,
        ghost before: seq<Sector>)
      returns (r: Outcome, stored: bool, ghost torn: int)
      requires Open() && k == first + |sent| && k + (if more then 1 else 0) < totalSectors && StandsAt(k)
      requires Disk().g.clusterSize > 0 && Stored(Disk(), before, card.sectors, totalSectors, first, sent, -1)
      modifies card`sectors, hardfile.volume`fatBuffer, hardfile.volume`fatIndex, hardfile.file`sector,
               hardfile.file`cluster
      ensures !IsFile() ==> hardfile.volume.fatIndex == old(hardfile.volume.fatIndex)
      ensures !IsFile() ==> hardfile.volume.fatBuffer == old(hardfile.volume.fatBuffer)
      ensures Open() && (more && r == Done ==> StandsAt(k + 1))
      ensures Disk().g.clusterSize > 0
      ensures Stored(Disk(), before, card.sectors, totalSectors, first, if stored then sent + [data] else sent, torn)
      ensures r == Done || r == Cancelled || r == Failed(ABRT)
      ensures r.Done? ==> stored && torn == -1
      ensures steady && card.healthy && !Locked() ==> r.Done?
    {
      hide Open(), Stored(), Disk(), StandsAt();
      r, stored, torn := Done, true, -1;
      OpenFile();
      if IsFile() {
        if hardfile.file.size != 0 && k + offset > -1 {
          r, stored, torn := WriteToFile(first, k, sent, data, more, before);
        } else {
          StoredMadeUp(Disk(), before, card.sectors, totalSectors, first, sent, data);
          StaysAhead(k);
        }
      } else {
        stored := WriteCardSector(first, k, sent, data, before);
        StaysAhead(k);
        if !stored {
          torn := k;
          r := FailCurrent(ABRT);
        }
      }
    }

    /** Ahead of made-up blocks the file stands still. */
    lemma StaysAhead(k: nat)
      requires StandsAt(k) && (k + offset < 0 || !IsFile())
      ensures StandsAt(k + 1)
    {
    }

    /** A sector of the file, and a step to the next if more are to come. */
    method WriteToFile(ghost first: nat, k: nat, ghost sent: seq<Sector>, data: Sector, more: bool,
        ghost before: seq<Sector>)
      returns (r: Outcome, stored: bool, ghost torn: int)
      requires Open() && IsFile() && k == first + |sent| && k + (if more then 1 else 0) < totalSectors
      requires k + offset >= 0 && StandsAt(k)
      requires Disk().g.clusterSize > 0 && Stored(Disk(), before, card.sectors, totalSectors, first, sent, -1)
      modifies card`sectors, hardfile.volume`fatBuffer, hardfile.volume`fatIndex, hardfile.file`sector,
               hardfile.file`cluster
      ensures Open() && (more && r == Done ==> StandsAt(k + 1))
      ensures Disk().g.clusterSize > 0
      ensures Stored(Disk(), before, card.sectors, totalSectors, first, if stored then sent + [data] else sent, torn)
      ensures r == Done || r == Cancelled || r == Failed(ABRT)
      ensures r.Done? ==> stored && torn == -1
      ensures steady && card.healthy && !Locked() ==> r.Done?
    {
      hide Open(), Stored(), Disk(), StandsAt();
      r, torn := Done, -1;
      stored := WriteFileSector(first, k, sent, data, before);
      if !stored {
        torn := k;
        r := FailCurrent(ABRT);
        return;
      }
      var active := CommandActive();
      if !active {
        r := Cancelled;
        return;
      }
      if more {
        var ok := StepOn(k);
        if !ok {
          r := FailCurrent(ABRT);
        }
      }
    }

    method WriteCardSector(ghost first: nat, k: nat, ghost sent: seq<Sector>, data: Sector, ghost before: seq<Sector>)
        returns (ok: bool)
      requires Open() && !IsFile() && k == first + |sent| < totalSectors
      requires Disk().g.clusterSize > 0 && Stored(Disk(), before, card.sectors, totalSectors, first, sent, -1)
      modifies card`sectors
      ensures Open() && Disk().g.clusterSize > 0
      ensures Stored(Disk(), before, card.sectors, totalSectors, first, if ok then sent + [data] else sent,
                if ok then -1 else k)
      ensures card.healthy ==> ok
    {
      hide Stored(), WellFormed(), Hardfile.Ready();
      ghost var mid := card.sectors;
      ok := card.Write(k + offset, data);
      StoredNext(Disk(), before, mid, card.sectors, totalSectors, first, sent);
    }

    method WriteFileSector(ghost first: nat, k: nat, ghost sent: seq<Sector>, data: Sector, ghost before: seq<Sector>)
        returns (ok: bool)
      requires Open() && IsFile() && k == first + |sent| < totalSectors && k + offset >= 0 && StandsAt(k)
      requires Disk().g.clusterSize > 0 && Stored(Disk(), before, card.sectors, totalSectors, first, sent, -1)
      modifies card`sectors
      ensures Open() && StandsAt(k) && Disk().g.clusterSize > 0
      ensures Stored(Disk(), before, card.sectors, totalSectors, first, if ok then sent + [data] else sent,
                if ok then -1 else k)
      ensures card.healthy && !Locked() ==> ok
    {
      hide Front(), Stored(), AtaDisk.Disk.Holds(), FileSector(), FileAddress(), AnchorsHold(), SameFat(), LastAnchor();
      OpenFile();
      HoldsNow();
      ghost var mid := card.sectors;
      ok := hardfile.volume.FileWriteChecked(hardfile.file, data);
      StoredNext(Disk(), before, mid, card.sectors, totalSectors, first, sent);
      AnchorsFrame(hardfile.volume.g, mid, card.sectors, hardfile.file.startCluster, hardfile.file.size,
        hardfile.Stride(), hardfile.index[..], LastAnchor(hardfile.file.size / 512, hardfile.Stride()) + 1);
    }

    lemma HoldsNow()
      requires Open()
      ensures Disk().g.Valid() && Disk().Holds(card.sectors, totalSectors)
    {
    }

    /** On to the next sector of the file. */
    method StepOn(k: nat) returns (ok: bool)
      requires Open() && IsFile() && k + 1 < totalSectors && k + offset >= 0 && StandsAt(k)
      modifies hardfile.volume`fatBuffer, hardfile.volume`fatIndex, hardfile.file`sector, hardfile.file`cluster
      ensures Open() && (ok ==> StandsAt(k + 1))
      ensures card.healthy ==> ok
    {
      hide Front(), AtaDisk.Disk.Holds(), Hardfile.Indexed(), ClusterOf(), Clusters();
      OpenFile();
      SectorInClusters(hardfile.volume.g, hardfile.file.size, k + offset + 1);
      SizeSectors(hardfile.file.size);
      ghost var links;
      ok, links := hardfile.volume.Seek(hardfile.file, hardfile.file.sector + 1);
    }
  }

  function Most(a: int, b: int): int {
    if a > b then a else b
  }

  lemma SizeSectors(size: nat)
    ensures size / 512 <= Sectors(size)
  {
  }

  lemma RunOne(d: Disk, card: seq<Sector>, k: nat, n: nat, s: Sector)
    requires d.g.clusterSize > 0 && s == d.Seen(card, k + n)
    ensures d.Run(card, k, n) + [s] == d.Run(card, k, n + 1)
  {
  }

  lemma BlocksStep(announced: seq<nat>, left: nat, size: nat, block: nat)
    requires size > 0 && left > 0 && block == if left > size then size else left
    ensures announced + Blocks(left, size) == announced + [block] + Blocks(left - block, size)
  {
  }

  lemma BlocksEnd(announced: seq<nat>, size: nat)
    requires size > 0
    ensures announced + Blocks(0, size) == announced
  {
  }
}
