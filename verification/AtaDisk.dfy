/** What the guest sees of an ATA disk: its sectors, one by one, and where each is kept. */
module AtaDisk {
  import opened Storage
  import opened FatChain

  // ---------------------------------------------------------------- rigid disk blocks

  /** Longword `i` of a sector, most significant byte first. */
  function Long(s: Sector, i: nat): u32
    requires i < 128
  {
    s[4 * i] as int * 0x100_0000 + s[4 * i + 1] as int * 0x1_0000 + s[4 * i + 2] as int * 0x100 + s[4 * i + 3] as int
  }

  function PutLong(s: Sector, i: nat, v: u32): (t: Sector)
    requires i < 128
    ensures Long(t, i) == v
    ensures forall j :: 0 <= j < 128 && j != i ==> Long(t, j) == Long(s, j)
  {
    BytesMake(v);
    PutFour(s, 4 * i, v / 0x100_0000, v / 0x1_0000 % 256, v / 0x100 % 256, v % 256)
  }

  function PutFour(s: Sector, p: nat, a: byte, b: byte, c: byte, d: byte): (t: Sector)
    requires p + 4 <= 512
    ensures t[p] == a && t[p + 1] == b && t[p + 2] == c && t[p + 3] == d
    ensures forall q :: 0 <= q < 512 && !(p <= q < p + 4) ==> t[q] == s[q]
  {
    s[p := a][p + 1 := b][p + 2 := c][p + 3 := d]
  }

  lemma BytesMake(v: u32)
    ensures v == v / 0x100_0000 * 0x100_0000 + v / 0x1_0000 % 256 * 0x1_0000 + v / 0x100 % 256 * 0x100 + v % 256
  {
    var q := v / 0x100;
    var r := q / 0x100;
    assert v / 0x1_0000 == r && v / 0x100_0000 == r / 0x100;
  }

  const RDSK: u32 := 0x5244_534B
  const CHECKSUM: nat := 2
  const FLAGS: nat := 5

  /** The boot-flag workaround: other flags in a rigid disk block, with the checksum adjusted to match. */
  function BootFlags(s: Sector): Sector {
    if Long(s, 0) == RDSK then
      PutLong(PutLong(s, CHECKSUM, (Long(s, CHECKSUM) + Long(s, FLAGS) - 0x12) % TWO32), FLAGS, 0x12)
    else s
  }

  /** The name of a rigid disk block, byte by byte. */
  predicate IsRdsk(s: Sector) {
    s[0] as char == 'R' && s[1] as char == 'D' && s[2] as char == 'S' && s[3] as char == 'K'
  }

  /** The workaround touches a rigid disk block only, in two places: bytes 20 to 23 then say 0x12, and bytes 8 to 11,
      the checksum, make up for it. */
  lemma BootFlagsBytes(s: Sector)
    ensures !IsRdsk(s) ==> BootFlags(s) == s
    ensures IsRdsk(s) ==> var t := BootFlags(s);
      && t[20] == 0 && t[21] == 0 && t[22] == 0 && t[23] == 0x12
      && (forall p :: 0 <= p < 512 && !(8 <= p < 12) && !(20 <= p < 24) ==> t[p] == s[p])
      && SumLongs(t, 128) % TWO32 == SumLongs(s, 128) % TWO32
  {
    hide SumLongs;
    assert IsRdsk(s) <==> Long(s, 0) == 0x5244_534B;
    BootFlagsSum(s, 128);
  }

  /** Sum of the first `n` longwords; a block is sound if it is 0 modulo 2^32. */
  function SumLongs(s: Sector, n: nat): int
    requires n <= 128
  {
    if n == 0 then 0 else SumLongs(s, n - 1) + Long(s, n - 1)
  }

  lemma {:induction false} SumPut(s: Sector, i: nat, v: u32, n: nat)
    requires i < 128 && n <= 128
    ensures SumLongs(PutLong(s, i, v), n) == SumLongs(s, n) + if i < n then v - Long(s, i) else 0
  {
    hide Long(), PutLong();
    if n > 0 {
      SumPut(s, i, v, n - 1);
    }
  }

  /** The workaround does not change whether a block's sum is right. */
  lemma BootFlagsSum(s: Sector, n: nat)
    requires FLAGS < n <= 128
    ensures SumLongs(BootFlags(s), n) % TWO32 == SumLongs(s, n) % TWO32
  {
    hide Long(), PutLong(), SumLongs();
    if Long(s, 0) == RDSK {
      var c := Long(s, CHECKSUM) + Long(s, FLAGS) - 0x12;
      var t := PutLong(s, CHECKSUM, c % TWO32);
      SumPut(s, CHECKSUM, c % TWO32, n);
      SumPut(t, FLAGS, 0x12, n);
    }
  }

  /** A block with the checksum that makes its summed longwords add up to 0. */
  function Sealed(l: seq<u32>): (r: seq<u32>)
    requires |l| == 128 && CHECKSUM < l[1] <= 128
    ensures |r| == 128 && forall i :: 0 <= i < 128 && i != CHECKSUM ==> r[i] == l[i]
    ensures Sum(r, l[1]) % TWO32 == 0
  {
    var cleared := l[CHECKSUM := 0];
    var sum := Sum(cleared, l[1]);
    var v := -sum % TWO32;
    SumUpdate(cleared, CHECKSUM, v, l[1]);
    assert cleared[CHECKSUM := v] == l[CHECKSUM := v];
    Negated(sum);
    l[CHECKSUM := v]
  }

  lemma Negated(sum: int)
    ensures (sum + -sum % TWO32) % TWO32 == 0
    ensures -sum % TWO32 == (TWO32 - sum % TWO32) % TWO32
  {
    var q, r := sum / TWO32, sum % TWO32;
    assert sum == TWO32 * q + r;
    if r == 0 {
      Remainder(-sum, -q, 0);
      Remainder(sum, q, 0);
    } else {
      Remainder(-sum, -q - 1, TWO32 - r);
      Remainder(sum + (TWO32 - r), q + 1, 0);
    }
  }

  lemma Remainder(a: int, q: int, r: int)
    requires a == TWO32 * q + r && 0 <= r < TWO32
    ensures a % TWO32 == r
  {
    var d := a / TWO32 - q;
    assert TWO32 * d == r - a % TWO32;
    assert d == 0;
  }

  /** RDBChecksum. */
  method RdbChecksum(p: array<u32>)
    requires p.Length == 128 && CHECKSUM < p[1] <= 128
    modifies p
    ensures p[..] == Sealed(old(p[..]))
  {
    ghost var l := p[..];
    var count := p[1];
    p[CHECKSUM] := 0;
    var result: u32 := 0;
    ghost var q := p[..];
    assert q == l[CHECKSUM := 0];
    for c2: int := 0 to count
      invariant p[..] == q && result == Sum(q, c2) % TWO32
    {
      result := (result + p[c2]) % TWO32;
    }
    var negated: u32 := (TWO32 - result) % TWO32;
    p[CHECKSUM] := negated;
    Negated(Sum(q, count));
    assert p[..] == l[CHECKSUM := negated];
  }

  function Sum(s: seq<u32>, n: nat): int
    requires n <= |s|
  {
    if n == 0 then 0 else Sum(s, n - 1) + s[n - 1]
  }

  lemma {:induction false} SumUpdate(s: seq<u32>, i: nat, v: u32, n: nat)
    requires i < |s| && n <= |s|
    ensures Sum(s[i := v], n) == Sum(s, n) + if i < n then v - s[i] else 0
  {
    if n > 0 {
      SumUpdate(s, i, v, n - 1);
    }
  }

  // ---------------------------------------------------------------- blocks of a transfer

  /** Sizes of the blocks of a transfer: as large as allowed, a smaller one at the end. */
  function Blocks(count: nat, size: nat): seq<nat>
    requires size > 0
  {
    if count == 0 then [] else
      var b := if count > size then size else count;
      [b] + Blocks(count - b, size)
  }

  function Added(s: seq<nat>): nat {
    if s == [] then 0 else s[0] + Added(s[1..])
  }

  /** No block is empty or larger than allowed, all but the last are full, and together they make the transfer. */
  lemma {:induction false} BlocksLaw(count: nat, size: nat)
    requires size > 0
    ensures Added(Blocks(count, size)) == count
    ensures forall i :: 0 <= i < |Blocks(count, size)| ==> 0 < Blocks(count, size)[i] <= size
    ensures forall i :: 0 <= i < |Blocks(count, size)| - 1 ==> Blocks(count, size)[i] == size
  {
    if count > 0 {
      BlocksLaw(count - if count > size then size else count, size);
    }
  }

  /** Read and write multiple need a power of two up to 16. */
  predicate ValidMultipleSize(n: nat) {
    n == 1 || n == 2 || n == 4 || n == 8 || n == 16
  }

  // ---------------------------------------------------------------- where guest sectors are kept

  datatype Backing =
    | InFile(start: nat, size: u32)
    | OnCard

  /** A disk: `offset` is added to a guest block number; below 0 lie the blocks made up in `prefix`. */
  datatype Disk = Disk(g: Geometry, backing: Backing, offset: int, prefix: seq<Sector>, bootUnit: bool)
  {
    /** Guest block `k` as it is kept. */
    function Kept(card: seq<Sector>, k: nat): Sector
      requires g.clusterSize > 0
    {
      if k + offset < 0 then (if k < |prefix| then prefix[k] else Blank())
      else if backing.InFile? then FileSector(g, card, backing.start, k + offset)
      else SectorAt(card, k + offset)
    }

    /** Guest block `k` as it is read. */
    function Seen(card: seq<Sector>, k: nat): Sector
      requires g.clusterSize > 0
    {
      if bootUnit && backing.InFile? && offset == 0 && k == 0 then BootFlags(Kept(card, k)) else Kept(card, k)
    }

    function Run(card: seq<Sector>, k: nat, n: nat): (s: seq<Sector>)
      requires g.clusterSize > 0
      ensures |s| == n && forall i :: 0 <= i < n ==> s[i] == Seen(card, k + i)
    {
      seq<Sector>(n, i requires 0 <= i < n => Seen(card, k + i))
    }

    /** Card sector that keeps block `k`. */
    function Home(card: seq<Sector>, k: nat): nat
      requires g.clusterSize > 0 && k + offset >= 0
    {
      if backing.InFile? then FileAddress(g, card, backing.start, k + offset) else k + offset
    }

    /** Every one of `total` guest blocks is kept somewhere. */
    ghost predicate Holds(card: seq<Sector>, total: nat)
    {
      && g.Valid() && (bootUnit && backing.InFile? && offset == 0 ==> |prefix| == 0)
      && match backing {
           case InFile(start, size) => WellFormed(g, card, start, size) && offset <= 0 && total + offset == size / 512
           case OnCard => offset >= 0 && total + offset <= |card|
         }
    }
  }

  /** Behind the blocks made up, block `k` is sector `k + offset` of the file or of the card; before them it is made
      up, and blank if nothing was made up for it. */
  lemma WhereKept(d: Disk, card: seq<Sector>, k: nat)
    requires d.g.clusterSize > 0
    ensures k + d.offset < 0 && k < |d.prefix| ==> d.Seen(card, k) == d.prefix[k]
    ensures k + d.offset < 0 && k >= |d.prefix| ==> forall p :: 0 <= p < 512 ==> d.Seen(card, k)[p] == 0
    ensures k + d.offset >= 0 && d.backing.OnCard? ==> d.Seen(card, k) == SectorAt(card, k + d.offset)
    ensures k + d.offset >= 0 && d.backing.InFile? ==>
              var f := FileSector(d.g, card, d.backing.start, k + d.offset);
              d.Seen(card, k) == if d.bootUnit && d.offset == 0 && k == 0 then BootFlags(f) else f
  {
    hide BootFlags, FileSector;
  }

  lemma RunJoin(d: Disk, card: seq<Sector>, k: nat, a: nat, b: nat)
    requires d.g.clusterSize > 0
    ensures d.Run(card, k, a) + d.Run(card, k + a, b) == d.Run(card, k, a + b)
  {
  }

  /** Blocks kept in the file, in order. */
  lemma RunOfFile(d: Disk, card: seq<Sector>, k: nat, n: nat)
    requires d.g.clusterSize > 0 && d.backing.InFile? && k + d.offset >= 0
    requires d.bootUnit && d.offset == 0 ==> k > 0
    ensures d.Run(card, k, n) == FileSectors(d.g, card, d.backing.start, k + d.offset, n)
  {
    hide FileSector();
    var f := FileSectors(d.g, card, d.backing.start, k + d.offset, n);
    assert forall i :: 0 <= i < n ==> d.Run(card, k, n)[i] == f[i];
  }

  lemma RunOfCard(d: Disk, card: seq<Sector>, k: nat, n: nat)
    requires d.g.clusterSize > 0 && d.backing.OnCard? && d.offset >= 0 && k + d.offset + n <= |card|
    ensures d.Run(card, k, n) == card[k + d.offset..k + d.offset + n]
  {
  }

  /** A stored block changes nothing but itself: the other blocks keep their contents. */
  lemma StoreFrame(d: Disk, before: seq<Sector>, after: seq<Sector>, total: nat, s: nat)
    requires d.Holds(before, total) && s < total && s + d.offset >= 0
    requires SameExcept(before, after, d.Home(before, s))
    requires d.backing.InFile? ==> SameFat(d.g, before, after)
    ensures d.Holds(after, total)
    ensures forall k :: 0 <= k < total && k != s ==> d.Kept(after, k) == d.Kept(before, k)
    ensures forall k :: 0 <= k < total && k + d.offset >= 0 ==> d.Home(after, k) == d.Home(before, k)
  {
    hide WellFormed(), FileSector(), FileAddress();
    if d.backing.InFile? {
      var start, size := d.backing.start, d.backing.size;
      WellFormedFrame(d.g, before, after, start, size);
      forall k: nat | k < total && k + d.offset >= 0 ensures d.Home(after, k) == d.Home(before, k) {
        FileStoreFrame(d.g, before, after, start, size, s + d.offset, k + d.offset);
      }
      forall k: nat | k < total && k != s ensures d.Kept(after, k) == d.Kept(before, k) {
        if k + d.offset >= 0 {
          FileStoreFrame(d.g, before, after, start, size, s + d.offset, k + d.offset);
        }
      }
    }
  }

  lemma FileStoreFrame(g: Geometry, before: seq<Sector>, after: seq<Sector>, start: nat, size: u32, s: nat, k: nat)
    requires g.Valid() && WellFormed(g, before, start, size) && SameFat(g, before, after)
    requires s < size / 512 && k < size / 512
    requires SameExcept(before, after, FileAddress(g, before, start, s))
    ensures FileAddress(g, after, start, k) == FileAddress(g, before, start, k)
    ensures k != s ==> FileSector(g, after, start, k) == FileSector(g, before, start, k)
  {
    hide WellFormed(), Clusters(), Address(), Chain();
    SectorInClusters(g, size, k);
    SectorInClusters(g, size, s);
    FileAddressExact(g, before, start, size, k);
    ChainFrame(g, before, after, start, ClusterOf(g, k));
    if k != s {
      FileAddressInjective(g, before, start, size, if k < s then k else s, if k < s then s else k);
    }
  }

  /** Card sector `x` keeps one of the `n` blocks from `first` on. */
  predicate KeepsOne(d: Disk, card: seq<Sector>, first: nat, n: nat, x: nat)
    requires d.g.clusterSize > 0
  {
    exists k :: first <= k < first + n && k + d.offset >= 0 && d.Home(card, k) == x
  }

  /** The blocks from `first` on hold `data`, made-up blocks excepted; all other blocks but `torn` are as before, and
      so is every card sector that keeps none of these blocks. */
  ghost predicate Stored(d: Disk, before: seq<Sector>, after: seq<Sector>, total: nat, first: nat, data: seq<Sector>,
      torn: int)
    requires d.g.clusterSize > 0
  {
    && |after| == |before| && (torn == -1 || torn == first + |data|)
    && (forall k :: first <= k < first + |data| && k + d.offset >= 0 ==> d.Kept(after, k) == data[k - first])
    && (forall k :: 0 <= k < total && !(first <= k < first + |data|) && k != torn ==>
      d.Kept(after, k) == d.Kept(before, k))
    && (forall x :: 0 <= x < |before| && !KeepsOne(d, before, first, |data| + (if torn == -1 then 0 else 1), x) ==>
      after[x] == before[x])
    && (forall k :: 0 <= k < total && k + d.offset >= 0 ==> d.Home(after, k) == d.Home(before, k))
  }

  lemma StoredNone(d: Disk, card: seq<Sector>, total: nat, first: nat)
    requires d.g.clusterSize > 0
    ensures Stored(d, card, card, total, first, [], -1)
  {
  }

  /** Made-up blocks are passed over: what is written to them is dropped. */
  lemma StoredMadeUp(d: Disk, before: seq<Sector>, after: seq<Sector>, total: nat, first: nat, data: seq<Sector>,
      s: Sector)
    requires d.g.clusterSize > 0 && Stored(d, before, after, total, first, data, -1) && first + |data| + d.offset < 0
    ensures Stored(d, before, after, total, first, data + [s], -1)
    ensures d.Kept(after, first + |data|) == d.Kept(before, first + |data|)
  {
    forall x | 0 <= x < |before| && !KeepsOne(d, before, first, |data| + 1, x) ensures after[x] == before[x] {
      assert !KeepsOne(d, before, first, |data|, x);
    }
  }

  /** One block more. */
  lemma StoredNext(d: Disk, before: seq<Sector>, mid: seq<Sector>, after: seq<Sector>, total: nat, first: nat,
      data: seq<Sector>)
    requires d.g.Valid() && d.Holds(mid, total) && Stored(d, before, mid, total, first, data, -1)
    requires first + |data| < total && first + |data| + d.offset >= 0
    requires SameExcept(mid, after, d.Home(mid, first + |data|))
    requires d.backing.InFile? ==> SameFat(d.g, mid, after)
    ensures d.Holds(after, total)
    ensures Stored(d, before, after, total, first, data, first + |data|)
    ensures Stored(d, before, after, total, first, data + [d.Kept(after, first + |data|)], -1)
  {
    hide Disk.Holds(), Disk.Kept(), Disk.Home();
    var k := first + |data|;
    StoreFrame(d, mid, after, total, k);
    forall x | 0 <= x < |before| && !KeepsOne(d, before, first, |data| + 1, x) ensures after[x] == before[x] {
      assert !KeepsOne(d, before, first, |data|, x);
      assert x != d.Home(before, k);
    }
  }

  /** Reading back after a write: what was sent, with the boot flags of the boot disk's first block put right; made-up
      blocks and all other blocks as they were. */
  lemma ReadBack(d: Disk, before: seq<Sector>, after: seq<Sector>, total: nat, first: nat, data: seq<Sector>)
    requires d.Holds(before, total) && Stored(d, before, after, total, first, data, -1)
    ensures forall k :: 0 <= k < total ==>
              d.Seen(after, k) ==
              if first <= k < first + |data| && k + d.offset >= 0 then
                (if d.bootUnit && d.backing.InFile? && d.offset == 0 && k == 0 then BootFlags(data[0 - first])
                 else data[k - first])
              else d.Seen(before, k)
  {
    hide BootFlags(), FileSector();
  }

  /** Reads of written blocks return exactly what was sent, unless it is a rigid disk block for block 0 of the boot
      disk. */
  lemma ReadBackExact(d: Disk, before: seq<Sector>, after: seq<Sector>, total: nat, first: nat, data: seq<Sector>)
    requires d.Holds(before, total) && Stored(d, before, after, total, first, data, -1) && first + |data| <= total
    requires first + d.offset >= 0
    ensures d.Run(after, first, |data|) == data <==>
            (d.bootUnit && d.backing.InFile? && d.offset == 0 && first == 0 && |data| > 0 && Long(data[0], 0) == RDSK
             ==> Long(data[0], FLAGS) == 0x12)
  {
    ReadBack(d, before, after, total, first, data);
    var r := d.Run(after, first, |data|);
    if d.bootUnit && d.backing.InFile? && d.offset == 0 && first == 0 && |data| > 0 && Long(data[0], 0) == RDSK {
      assert r[0] == BootFlags(data[0]);
      BootFlagsSame(data[0]);
    }
    hide BootFlags(), FileSector(), Long(), PutLong();
    assert |data| > 0 ==> (r == data <==> r[0] == data[0]);
  }

  /** The workaround leaves a rigid disk block alone exactly if it has those flags already. */
  lemma BootFlagsSame(s: Sector)
    requires Long(s, 0) == RDSK
    ensures BootFlags(s) == s <==> Long(s, FLAGS) == 0x12
  {
    hide Long(), PutLong();
    PutSame(s, CHECKSUM);
    PutSame(s, FLAGS);
  }

  lemma PutSame(s: Sector, i: nat)
    requires i < 128
    ensures PutLong(s, i, Long(s, i)) == s
  {
    BytesOf(s[4 * i], s[4 * i + 1], s[4 * i + 2], s[4 * i + 3]);
  }

  lemma BytesOf(a: byte, b: byte, c: byte, d: byte)
    ensures var v := a as int * 0x100_0000 + b as int * 0x1_0000 + c as int * 0x100 + d as int;
      v / 0x100_0000 == a && v / 0x1_0000 % 256 == b && v / 0x100 % 256 == c && v % 256 == d
  {
    var ab, cd := a as int * 256 + b as int, c as int * 256 + d as int;
    var v := a as int * 0x100_0000 + b as int * 0x1_0000 + c as int * 0x100 + d as int;
    Quotient(v, 0x100_0000, a as int, b as int * 0x1_0000 + cd);
    Quotient(v, 0x1_0000, ab, cd);
    Quotient(v, 0x100, ab * 256 + c as int, d as int);
  }

  lemma Quotient(v: int, n: int, q: int, r: int)
    requires n == 0x100 || n == 0x1_0000 || n == 0x100_0000
    requires v == q * n + r && 0 <= r < n
    ensures v / n == q
  {
  }
}
