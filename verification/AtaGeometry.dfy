/** Cylinder, head and sector addresses of the ATA disk, and the geometry chosen for a disk of a given size. */
module AtaGeometry {
  import opened Storage

  // ---------------------------------------------------------------- products and quotients

  function Times(a: int, b: int): int {
    a * b
  }

  lemma TimesMono(a: int, b: int, c: nat)
    requires a <= b
    ensures Times(a, c) <= Times(b, c)
  {
  }

  lemma TimesNext(a: int, c: int)
    ensures Times(a + 1, c) == Times(a, c) + c && Times(0, c) == 0 && Times(1, c) == c
  {
  }

  /** Quotient rounded up, the way the source writes it. */
  function Ceil(total: nat, unit: nat): nat
    requires unit > 0
  {
    total / unit + if total % unit != 0 then 1 else 0
  }

  /** Rounded up is the least number of units that covers the total. */
  lemma CeilLeast(total: nat, unit: nat, n: nat)
    requires unit > 0
    ensures Ceil(total, unit) <= n <==> total <= Times(n, unit)
  {
    var q, r := total / unit, total % unit;
    assert total == Times(q, unit) + r;
    TimesNext(q, unit);
    if n <= q {
      TimesMono(n, q, unit);
      if n < q {
        TimesMono(n + 1, q, unit);
        TimesNext(n, unit);
      }
    } else {
      TimesMono(q + 1, n, unit);
    }
  }

  // ---------------------------------------------------------------- addresses

  datatype Shape = Shape(cylinders: nat, heads: nat, sectors: nat)
  {
    /** Sectors per cylinder. */
    function Cylinder(): int {
      Times(heads, sectors)
    }

    function Total(): int {
      Times(cylinders, Cylinder())
    }
  }

  datatype Chs = Chs(cylinder: nat, head: nat, sector: nat)

  /** A head and a sector the disk has. */
  predicate InCylinder(s: Shape, a: Chs) {
    a.head < s.heads && 1 <= a.sector <= s.sectors
  }

  predicate InShape(s: Shape, a: Chs) {
    a.cylinder < s.cylinders && InCylinder(s, a)
  }

  function Chs2Lba(s: Shape, a: Chs): int {
    Times(Times(a.cylinder, s.heads) + a.head, s.sectors) + a.sector - 1
  }

  function Lba2Chs(s: Shape, lba: nat): Chs
    requires s.heads > 0 && s.sectors > 0
  {
    Chs(lba / s.sectors / s.heads, lba / s.sectors % s.heads, lba % s.sectors + 1)
  }

  lemma QuotientOf(q: nat, r: nat, d: nat)
    requires r < d
    ensures (Times(q, d) + r) / d == q && (Times(q, d) + r) % d == r
  {
    var x := q * d + r;
    var a := x / d;
    if a < q {
      TimesMono(a + 1, q, d);
      TimesNext(a, d);
    } else if a > q {
      TimesMono(q + 1, a, d);
      TimesNext(q, d);
    }
  }

  lemma TimesAssociative(a: int, b: int, c: int)
    ensures Times(Times(a, b), c) == Times(a, Times(b, c))
  {
  }

  /** Every address of the shape names a block of the shape... */
  lemma LbaInShape(s: Shape, a: Chs)
    requires InShape(s, a)
    ensures 0 <= Chs2Lba(s, a) < s.Total() && Lba2Chs(s, Chs2Lba(s, a)) == a
  {
    var track := Times(a.cylinder, s.heads) + a.head;
    TimesMono(0, a.cylinder, s.heads);
    TimesMono(a.cylinder + 1, s.cylinders, s.heads);
    TimesNext(a.cylinder, s.heads);
    assert 0 <= track < Times(s.cylinders, s.heads);
    TimesMono(0, track, s.sectors);
    TimesMono(track + 1, Times(s.cylinders, s.heads), s.sectors);
    TimesNext(track, s.sectors);
    TimesAssociative(s.cylinders, s.heads, s.sectors);
    QuotientOf(track, a.sector - 1, s.sectors);
    QuotientOf(a.cylinder, a.head, s.heads);
  }

  /** ... and every block of the shape has exactly one. */
  lemma ChsOfLba(s: Shape, lba: nat)
    requires s.heads > 0 && s.sectors > 0 && lba < s.Total()
    ensures InShape(s, Lba2Chs(s, lba)) && Chs2Lba(s, Lba2Chs(s, lba)) == lba
  {
    var track := lba / s.sectors;
    assert lba == Times(track, s.sectors) + lba % s.sectors;
    assert track == Times(track / s.heads, s.heads) + track % s.heads;
    TimesAssociative(s.cylinders, s.heads, s.sectors);
    if track >= Times(s.cylinders, s.heads) {
      TimesMono(Times(s.cylinders, s.heads), track, s.sectors);
      assert false;
    }
    if track / s.heads >= s.cylinders {
      TimesMono(s.cylinders, track / s.heads, s.heads);
      assert false;
    }
  }

  /** The address of the next sector, the way both transfer loops step. */
  function Following(s: Shape, a: Chs): Chs {
    if a.sector != s.sectors then a.(sector := a.sector + 1)
    else if a.head + 1 != s.heads then Chs(a.cylinder, a.head + 1, 1)
    else Chs(a.cylinder + 1, 0, 1)
  }

  lemma FollowingLba(s: Shape, a: Chs)
    requires InCylinder(s, a)
    ensures InCylinder(s, Following(s, a)) && Chs2Lba(s, Following(s, a)) == Chs2Lba(s, a) + 1
  {
    TimesNext(a.cylinder, s.heads);
    TimesNext(Times(a.cylinder, s.heads) + a.head, s.sectors);
  }

  /** Only addresses of the shape name blocks of the shape. */
  lemma LbaTells(s: Shape, a: Chs)
    requires InCylinder(s, a)
    ensures Chs2Lba(s, a) < s.Total() <==> InShape(s, a)
  {
    if a.cylinder >= s.cylinders {
      TimesMono(s.cylinders, a.cylinder, s.heads);
      TimesMono(Times(s.cylinders, s.heads), Times(a.cylinder, s.heads) + a.head, s.sectors);
      TimesAssociative(s.cylinders, s.heads, s.sectors);
    } else {
      LbaInShape(s, a);
    }
  }

  /** Steps over all but the first of `count` sectors: ends on the last sector of the transfer. */
  method AdvanceChs(s: Shape, a: Chs, count: nat) returns (last: Chs)
    requires InCylinder(s, a) && count > 0
    ensures InCylinder(s, last) && Chs2Lba(s, last) == Chs2Lba(s, a) + count - 1
    ensures Chs2Lba(s, a) + count <= s.Total() ==> InShape(s, last)
  {
    hide Chs2Lba(), InCylinder();
    var sector, head, cylinder := a.sector, a.head, a.cylinder;
    var blk := count - 1;
    while blk != 0
      invariant 0 <= blk < count
      invariant InCylinder(s, Chs(cylinder, head, sector))
      invariant Chs2Lba(s, Chs(cylinder, head, sector)) == Chs2Lba(s, a) + count - 1 - blk
    {
      FollowingLba(s, Chs(cylinder, head, sector));
      if sector == s.sectors {
        sector := 1;
        head := head + 1;
        if head == s.heads {
          head := 0;
          cylinder := cylinder + 1;
        }
      } else {
        sector := sector + 1;
      }
      blk := blk - 1;
    }
    last := Chs(cylinder, head, sector);
    LbaTells(s, last);
  }

  // ---------------------------------------------------------------- choosing a shape

  const HEADS: nat := 16
  const LIMIT: nat := 65535

  /** Sectors per track tried, in order. */
  const Tracks: seq<nat> := [63, 127, 255]

  /** Whether a cylinder count ends the search. */
  predicate Acceptable(total: nat, head: nat, cyl: nat, limit: nat) {
    if total <= 1024 * 1024 then cyl <= 1023
    else cyl < 16383 || (cyl < 32767 && head >= 5) || cyl <= limit
  }

  /** Most cylinders: 1023 for up to half a gigabyte, otherwise the limit. */
  function MostCylinders(total: nat, limit: nat): nat {
    if total <= 1048576 then 1023 else limit
  }

  /** Shapes come in this order: 4 to 16 heads, for 63, 127 and then 255 sectors per track. */
  predicate TriedBefore(h: nat, s: nat, head: nat, spt: nat) {
    4 <= h <= 16 && ((s in {63, 127, 255} && s < spt) || (s == spt && h < head))
  }

  /** The search over track lengths and head counts: the first acceptable shape. Beyond what 16 heads, 255 sectors and
      `limit` cylinders hold, there is none. */
  method Approximate(total: nat, limit: nat) returns (found: bool, cyl: nat, head: nat, spt: nat)
    requires 32767 <= limit <= LIMIT
    ensures found <==> total <= Times(limit, HEADS * 255)
    ensures !found ==> head == HEADS + 1 && spt == 255
    ensures found ==> 4 <= head <= HEADS && spt in Tracks && cyl <= limit && cyl == Ceil(total, Unit(head, spt))
    ensures found ==>
              4 <= head <= 16 && spt in {63, 127, 255} && total <= Times(MostCylinders(total, limit), head * spt)
    ensures found ==>
              forall h: nat, s: nat :: TriedBefore(h, s, head, spt) ==>
                total > Times(MostCylinders(total, limit), h * s)
  {
    hide Ceil(), Times(), MostCylinders(), Acceptable();
    found, cyl, head, spt := false, 0, 0, 0;
    var i := 0;
    while i < |Tracks|
      invariant 0 <= i <= 3
      invariant forall j, h: nat :: 0 <= j < i && 4 <= h <= 16 ==> !Suits(total, h, Tracks[j], limit)
      invariant i > 0 ==> spt == Tracks[i - 1] && head == HEADS + 1 && cyl == Ceil(total, Unit(HEADS, spt))
      invariant i > 0 ==> !Acceptable(total, HEADS, Ceil(total, Unit(HEADS, Tracks[i - 1])), limit)
    {
      spt := Tracks[i];
      head := 4;
      while head <= HEADS
        invariant 4 <= head <= HEADS + 1
        invariant head > 4 ==> cyl == Ceil(total, Unit(head - 1, spt)) && !Acceptable(total, head - 1, cyl, limit)
        invariant forall h: nat :: 4 <= h < head ==> !Suits(total, h, spt, limit)
      {
        AcceptableSuits(total, head, spt, limit);
        cyl := Ceil(total, Unit(head, spt));
        if Acceptable(total, head, cyl, limit) {
          break;
        }
        head := head + 1;
      }
      if head <= HEADS {
        WhenFound(total, head, spt, cyl, limit);
        found := true;
        FirstFound(total, i, head, limit);
        return;
      }
      i := i + 1;
    }
    WhenNone(total, limit);
  }

  /** A shape with these heads and tracks holds the disk within the cylinders allowed. */
  predicate Suits(total: nat, head: nat, spt: nat, limit: nat) {
    total <= Times(MostCylinders(total, limit), head * spt)
  }

  /** The steps in the source's test make no difference: it comes down to the largest cylinder count. */
  lemma AcceptableSuits(total: nat, head: nat, spt: nat, limit: nat)
    requires head >= 4 && spt >= 63 && limit >= 32767
    ensures Acceptable(total, head, Ceil(total, Unit(head, spt)), limit) <==> Suits(total, head, spt, limit)
  {
    CeilLeast(total, Unit(head, spt), MostCylinders(total, limit));
  }

  lemma FirstFound(total: nat, i: nat, head: nat, limit: nat)
    requires i < 3 && 4 <= head <= 16 && limit >= 32767
    requires forall j, h: nat :: 0 <= j < i && 4 <= h <= 16 ==> !Suits(total, h, Tracks[j], limit)
    requires forall h: nat :: 4 <= h < head ==> !Suits(total, h, Tracks[i], limit)
    ensures forall h: nat, s: nat :: TriedBefore(h, s, head, Tracks[i]) ==>
              total > Times(MostCylinders(total, limit), h * s)
  {
    hide Times(), MostCylinders();
    forall h: nat, s: nat | TriedBefore(h, s, head, Tracks[i]) ensures !Suits(total, h, s, limit) {
      if s < Tracks[i] {
        var j := if s == 63 then 0 else 1;
        assert Tracks[j] == s && j < i;
      }
    }
  }

  /** Sectors per cylinder of one attempt. */
  function Unit(head: nat, spt: nat): (u: nat)
    ensures u == Times(head, spt) && (head >= 4 && spt >= 63 ==> u > 0)
  {
    head * spt
  }

  lemma WhenFound(total: nat, head: nat, spt: nat, cyl: nat, limit: nat)
    requires 4 <= head <= HEADS && 63 <= spt <= 255 && cyl == Ceil(total, Unit(head, spt)) && 32767 <= limit <= LIMIT
    requires Acceptable(total, head, cyl, limit)
    ensures cyl <= limit && total <= Times(limit, HEADS * 255)
  {
    CeilLeast(total, Unit(head, spt), limit);
    TimesSmaller(head, HEADS, spt, 255);
    TimesRight(limit, Times(head, spt), Times(HEADS, 255));
  }

  lemma WhenNone(total: nat, limit: nat)
    requires 32767 <= limit <= LIMIT && !Acceptable(total, HEADS, Ceil(total, Unit(HEADS, 255)), limit)
    ensures total > Times(limit, HEADS * 255)
  {
    CeilLeast(total, Unit(HEADS, 255), limit);
    CeilLeast(total, Unit(HEADS, 255), 1023);
  }

  lemma TimesSmaller(a: nat, b: nat, c: nat, d: nat)
    requires a <= b && c <= d
    ensures Times(a, c) <= Times(b, d)
  {
    TimesMono(a, b, c);
    TimesRight(b, c, d);
  }

  lemma TimesRight(a: nat, b: int, c: int)
    requires b <= c
    ensures Times(a, b) <= Times(a, c)
  {
  }

  /** Sectors per track of hardfiles made by WinUAE. */
  const TRACK: nat := 32

  /** The disk is a whole number of cylinders of 32 sectors on `h` tracks, and not too many. */
  predicate Whole(total: nat, h: nat) {
    1 <= h <= 16 && total % (32 * h) == 0 && total / (32 * h) <= 65534
  }

  lemma WholeExactly(total: nat, h: nat)
    requires 1 <= h <= 16 && total <= TWO32 / 512
    ensures h * (total / (TRACK * h)) * TRACK == total <==> total % (32 * h) == 0
    ensures h == 16 ==> total / (TRACK * h) <= 65534
  {
    var d := TRACK * h;
    assert total == d * (total / d) + total % d;
    assert h * (total / d) * TRACK == d * (total / d);
  }

  /** GetHardfileGeometry, for a disk of `total` sectors; a synthetic partition table adds a cylinder in front. The
      shape holds the whole disk, and one cylinder less would not. */
  method HardfileGeometry(total: nat, synthetic: bool) returns (ok: bool, s: Shape)
    requires total > 0
    requires synthetic ==> total <= TWO32 / 512
    ensures ok <==> total <= Times(if synthetic then LIMIT - 1 else LIMIT, HEADS * 255)
    ensures !ok ==> s.heads == HEADS + 1
    ensures ok ==> 0 < s.heads <= HEADS && 0 < s.sectors <= 255 && 0 < s.cylinders <= LIMIT
    ensures ok ==> var prefix := if synthetic then s.Cylinder() else 0;
                   total + prefix <= s.Total() < total + prefix + s.Cylinder()
    ensures synthetic && (exists h: nat :: Whole(total, h)) ==>
              && s.sectors == 32 && Whole(total, s.heads) && s.cylinders == total / (32 * s.heads) + 1
              && forall h: nat :: h < s.heads ==> !Whole(total, h)
    ensures ok && !(synthetic && exists h: nat :: Whole(total, h)) ==>
              && 4 <= s.heads <= 16 && s.sectors in {63, 127, 255}
              && forall h: nat, t: nat :: TriedBefore(h, t, s.heads, s.sectors) ==>
                   total > Times(MostCylinders(total, if synthetic then 65534 else 65535), h * t)
  {
    hide Ceil(), Times();
    var limit := if synthetic then LIMIT - 1 else LIMIT;
    if synthetic {
      var head, cyl := 1, total / TRACK;
      while head < HEADS && (cyl > limit || head * cyl * TRACK != total)
        invariant 1 <= head <= HEADS && cyl == total / (TRACK * head)
        invariant forall h: nat :: h < head ==> !Whole(total, h)
      {
        WholeExactly(total, head);
        head := head + 1;
        cyl := total / (TRACK * head);
      }
      WholeExactly(total, head);
      if head * cyl * TRACK == total {
        s := Shape(cyl + 1, head, TRACK);
        ExactShape(total, head, cyl);
        return true, s;
      }
    }
    var cyl, head, spt;
    ok, cyl, head, spt := Approximate(total, limit);
    s := Shape((if synthetic then cyl + 1 else cyl) % 65536, head, spt);
    if ok {
      ShapeHolds(total, cyl, head, spt);
      TimesNext(cyl, Unit(head, spt));
    }
  }

  lemma ShapeHolds(total: nat, cyl: nat, head: nat, spt: nat)
    requires total > 0 && head >= 4 && spt >= 63 && cyl == Ceil(total, Unit(head, spt))
    ensures cyl > 0 && total <= Times(cyl, Unit(head, spt)) < total + Unit(head, spt)
  {
    CeilLeast(total, Unit(head, spt), cyl);
    CeilLeast(total, Unit(head, spt), cyl - 1);
    TimesNext(cyl - 1, Unit(head, spt));
  }

  lemma ExactShape(total: nat, head: nat, cyl: nat)
    requires 0 < total <= TWO32 / 512 && 1 <= head <= HEADS && head * cyl * TRACK == total
    requires cyl == total / (TRACK * head)
    requires head == HEADS || cyl <= LIMIT - 1
    ensures 0 < cyl && cyl + 1 <= LIMIT && total <= Times(LIMIT - 1, HEADS * 255)
    ensures var s := Shape(cyl + 1, head, TRACK); s.Total() == total + s.Cylinder() && s.Cylinder() > 0
  {
    if head == HEADS {
      assert cyl == total / 512;
    }
    TimesNext(cyl, Times(head, TRACK));
    assert Times(cyl, Times(head, TRACK)) == head * cyl * TRACK;
  }
}
