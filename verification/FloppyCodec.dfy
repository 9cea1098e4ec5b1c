/** The Amiga track format: what a sector looks like on the wire, and what a decoder may make of it. */
module FloppyCodec {

  type Stream = seq<bv8>

  /** Data bits; the others are clock bits. */
  const DATA: bv8 := 0x55
  const CLOCK: bv8 := 0xAA

  const SECTOR: nat := 512
  const TRACK_SIZE: nat := 12668
  const SECTOR_SIZE: nat := 1088
  const SECTORS: nat := 11
  const GAP_SIZE: nat := TRACK_SIZE - SECTORS * SECTOR_SIZE

  // ---------------------------------------------------------------- bytes

  function Half(x: bv8): bv8 {
    x >> 1
  }

  function Odd(x: bv8): bv8 {
    Half(x) & DATA
  }

  function Even(x: bv8): bv8 {
    x & DATA
  }

  /** A byte from its odd and even halves. */
  function Join(odd: bv8, even: bv8): bv8 {
    ((odd & DATA) << 1) | (even & DATA)
  }

  /** A decoded odd half, and putting an even half to it. */
  function High(odd: bv8): bv8 {
    (odd & DATA) << 1
  }

  function With(high: bv8, even: bv8): bv8 {
    high | (even & DATA)
  }

  lemma JoinParts(odd: bv8, even: bv8)
    ensures With(High(odd), even) == Join(odd, even)
  {
  }

  function Xor(a: bv8, b: bv8): bv8 {
    a ^ b
  }

  function Clocked(x: bv8): bv8 {
    x | CLOCK
  }

  lemma JoinSplit(x: bv8)
    ensures Join(Odd(x), Even(x)) == x
    ensures Join(Clocked(Half(x)), Clocked(x)) == x
  {
  }

  // ---------------------------------------------------------------- checksums

  /** Exclusive or of every fourth byte, from `c` on, `n` of them. */
  function Column(s: Stream, c: nat, n: nat): bv8
    requires c < 4 && 4 * n <= |s|
  {
    if n == 0 then 0 else Xor(Column(s, c, n - 1), s[4 * (n - 1) + c])
  }

  /** The checksum the encoder sums up: of each byte with itself shifted by one. */
  function Folded(s: Stream, c: nat, n: nat): bv8
    requires c < 4 && 4 * n <= |s|
  {
    if n == 0 then 0 else Xor(Folded(s, c, n - 1), Xor(s[4 * (n - 1) + c], Half(s[4 * (n - 1) + c])))
  }

  function Odds(s: Stream): (r: Stream)
    ensures |r| == |s| && forall i :: 0 <= i < |s| ==> r[i] == Clocked(Half(s[i]))
  {
    if s == [] then [] else Odds(s[..|s| - 1]) + [Clocked(Half(s[|s| - 1]))]
  }

  function Evens(s: Stream): (r: Stream)
    ensures |r| == |s| && forall i :: 0 <= i < |s| ==> r[i] == Clocked(s[i])
  {
    if s == [] then [] else Evens(s[..|s| - 1]) + [Clocked(s[|s| - 1])]
  }

  lemma FoldStep(a: bv8, b: bv8, f: bv8, x: bv8)
    requires Even(Xor(a, b)) == Even(f)
    ensures Even(Xor(Xor(a, Clocked(Half(x))), Xor(b, Clocked(x)))) == Even(Xor(f, Xor(x, Half(x))))
  {
  }

  /** The decoder's sum over both halves is the encoder's sum over the bytes. */
  lemma {:induction false} HalvesSum(s: Stream, c: nat, n: nat)
    requires c < 4 && 4 * n <= |s|
    ensures Even(Xor(Column(Odds(s), c, n), Column(Evens(s), c, n))) == Even(Folded(s, c, n))
  {
    hide Xor(), Clocked(), Half(), Odds(), Evens(), Even();
    if n > 0 {
      HalvesSum(s, c, n - 1);
      FoldStep(Column(Odds(s), c, n - 1), Column(Evens(s), c, n - 1), Folded(s, c, n - 1), s[4 * (n - 1) + c]);
    } else {
      NoSum();
    }
  }

  lemma NoSum()
    ensures Even(Xor(0, 0)) == Even(0)
  {
  }

  // ---------------------------------------------------------------- fields

  /** A checksum field: four clock bytes for the odd half, then the even half. */
  function CheckField(a: bv8, b: bv8, c: bv8, d: bv8): (r: Stream)
    ensures |r| == 8
  {
    [CLOCK, CLOCK, CLOCK, CLOCK, Clocked(a), Clocked(b), Clocked(c), Clocked(d)]
  }

  /** Value `c` of a checksum field. */
  function Checked(s: Stream, c: nat): bv8
    requires |s| == 8 && c < 4
  {
    Join(s[c], s[4 + c])
  }

  /** The data field of a sector: checksum, odd halves, even halves. */
  function DataField(data: Stream): (r: Stream)
    requires |data| == SECTOR
    ensures |r| == 8 + 2 * SECTOR
  {
    CheckField(Folded(data, 0, 128), Folded(data, 1, 128), Folded(data, 2, 128), Folded(data, 3, 128)) + Odds(data)
      + Evens(data)
  }

  function Joined(odds: Stream, evens: Stream): (r: Stream)
    requires |odds| == |evens|
    ensures |r| == |odds| && forall i :: 0 <= i < |r| ==> r[i] == Join(odds[i], evens[i])
  {
    if odds == [] then [] else
      var n := |odds| - 1;
      Joined(odds[..n], evens[..n]) + [Join(odds[n], evens[n])]
  }

  /** The decoder accepts a data field. */
  predicate DataGood(s: Stream)
    requires |s| == 8 + 2 * SECTOR
  {
    forall c :: 0 <= c < 4 ==> Checked(s[..8], c) == Even(Xor(Column(s[8..520], c, 128), Column(s[520..], c, 128)))
  }

  function DataOf(s: Stream): (r: Stream)
    requires |s| == 8 + 2 * SECTOR
    ensures |r| == SECTOR && forall i :: 0 <= i < SECTOR ==> r[i] == Join(s[8 + i], s[520 + i])
  {
    Joined(s[8..520], s[520..])
  }

  lemma CheckedField(a: bv8, b: bv8, c: bv8, d: bv8)
    ensures var f := CheckField(a, b, c, d);
      Checked(f, 0) == Even(a) && Checked(f, 1) == Even(b) && Checked(f, 2) == Even(c) && Checked(f, 3) == Even(d)
  {
  }

  /** Round trip of a sector's data. */
  lemma DataRoundTrip(data: Stream)
    requires |data| == SECTOR
    ensures DataGood(DataField(data)) && DataOf(DataField(data)) == data
  {
    hide Xor(), Clocked(), Join(), CheckField(), Column(), Folded(), Half(), Even(), Checked(), Joined(), Odds(),
         Evens();
    var s := DataField(data);
    assert s[..8] == CheckField(Folded(data, 0, 128), Folded(data, 1, 128), Folded(data, 2, 128), Folded(data, 3, 128));
    assert s[8..520] == Odds(data) && s[520..] == Evens(data);
    CheckedField(Folded(data, 0, 128), Folded(data, 1, 128), Folded(data, 2, 128), Folded(data, 3, 128));
    HalvesSum(data, 0, 128);
    HalvesSum(data, 1, 128);
    HalvesSum(data, 2, 128);
    HalvesSum(data, 3, 128);
    forall i | 0 <= i < SECTOR ensures DataOf(s)[i] == data[i] {
      JoinSplit(data[i]);
      assert s[8 + i] == s[8..520][i] && s[520 + i] == s[520..][i];
    }
  }

  // ---------------------------------------------------------------- corruption

  /** One byte of a stream with some bits turned over. */
  function Flip(s: Stream, p: nat, m: bv8): Stream
    requires p < |s|
  {
    s[p := Xor(s[p], m)]
  }

  lemma XorLaws(a: bv8, b: bv8, m: bv8)
    ensures Xor(Xor(a, m), b) == Xor(Xor(a, b), m) && Xor(a, Xor(b, m)) == Xor(Xor(a, b), m)
    ensures Even(Xor(a, m)) == Even(a) <==> Even(m) == 0
  {
  }

  lemma JoinFlip(a: bv8, b: bv8, m: bv8)
    ensures Join(Xor(a, m), b) == Join(a, b) <==> Even(m) == 0
    ensures Join(a, Xor(b, m)) == Join(a, b) <==> Even(m) == 0
  {
  }

  /** Turning bits over in one byte turns them over in the sum of its column. */
  lemma {:induction false} ColumnFlip(s: Stream, p: nat, m: bv8, c: nat, n: nat)
    requires c < 4 && 4 * n <= |s| && p < |s|
    ensures Column(Flip(s, p, m), c, n) == if p % 4 == c && p / 4 < n then Xor(Column(s, c, n), m) else Column(s, c, n)
  {
    hide Xor();
    if n > 0 {
      ColumnFlip(s, p, m, c, n - 1);
      XorLaws(Column(s, c, n - 1), s[4 * (n - 1) + c], m);
    }
  }

  /** The data field under corruption of one byte: data bits are protected, clock bits do not matter. */
  lemma DataFlip(s: Stream, p: nat, m: bv8)
    requires |s| == 8 + 2 * SECTOR && p < |s| && DataGood(s)
    ensures DataGood(Flip(s, p, m)) <==> Even(m) == 0
    ensures Even(m) == 0 ==> DataOf(Flip(s, p, m)) == DataOf(s)
  {
    hide Xor(), Even(), Join(), Column(), Joined();
    var t := Flip(s, p, m);
    FlipParts(s, p, m);
    if p < 8 {
      forall c | 0 <= c < 4 ensures Checked(t[..8], c) == Checked(s[..8], c) <==> (p % 4 != c || Even(m) == 0) {
        JoinFlip(s[c], s[4 + c], m);
      }
      assert Checked(t[..8], p % 4) == Checked(s[..8], p % 4) <==> Even(m) == 0;
    } else {
      forall c | 0 <= c < 4
        ensures Even(Xor(Column(t[8..520], c, 128), Column(t[520..], c, 128))) ==
                  Even(Xor(Column(s[8..520], c, 128), Column(s[520..], c, 128)))
                <==> (p % 4 != c || Even(m) == 0)
      {
        SumFlip(s, p, m, c);
      }
      assert Checked(t[..8], p % 4) == Checked(s[..8], p % 4);
    }
    forall i | 0 <= i < SECTOR && Even(m) == 0 ensures DataOf(t)[i] == DataOf(s)[i] {
      JoinFlip(s[8 + i], s[520 + i], m);
    }
  }

  /** Where the corrupted byte lies. */
  lemma FlipParts(s: Stream, p: nat, m: bv8)
    requires |s| == 8 + 2 * SECTOR && p < |s|
    ensures var t := Flip(s, p, m);
      && (if p < 8 then t[..8] == Flip(s[..8], p, m) else t[..8] == s[..8])
      && (if 8 <= p < 520 then t[8..520] == Flip(s[8..520], p - 8, m) else t[8..520] == s[8..520])
      && (if 520 <= p then t[520..] == Flip(s[520..], p - 520, m) else t[520..] == s[520..])
  {
    hide Xor();
  }

  lemma SumFlip(s: Stream, p: nat, m: bv8, c: nat)
    requires |s| == 8 + 2 * SECTOR && 8 <= p < |s| && c < 4
    ensures var t := Flip(s, p, m);
      Even(Xor(Column(t[8..520], c, 128), Column(t[520..], c, 128))) ==
        Even(Xor(Column(s[8..520], c, 128), Column(s[520..], c, 128)))
      <==> (p % 4 != c || Even(m) == 0)
  {
    hide Xor(), Even(), Flip();
    var a, b := Column(s[8..520], c, 128), Column(s[520..], c, 128);
    FlipParts(s, p, m);
    XorLaws(a, b, m);
    XorLaws(Xor(a, b), b, m);
    if p < 520 {
      ColumnFlip(s[8..520], p - 8, m, c, 128);
    } else {
      ColumnFlip(s[520..], p - 520, m, c, 128);
    }
  }

  // ---------------------------------------------------------------- headers

  /** Information longword of a header: format, track, sector, sectors to the gap. */
  function Info(track: bv8, sector: bv8): (r: Stream)
    ensures |r| == 4
  {
    [0xFF, track, sector, 11 - sector]
  }

  function Odds0(s: Stream): (r: Stream)
    requires |s| == 4
    ensures |r| == 4
  {
    [Odd(s[0]), Odd(s[1]), Odd(s[2]), Odd(s[3])]
  }

  function Evens0(s: Stream): (r: Stream)
    requires |s| == 4
    ensures |r| == 4
  {
    [Even(s[0]), Even(s[1]), Even(s[2]), Even(s[3])]
  }

  function Clocks(n: nat): (r: Stream)
    ensures |r| == n && forall i :: 0 <= i < n ==> r[i] == CLOCK
  {
    if n == 0 then [] else Clocks(n - 1) + [CLOCK]
  }

  const LABEL: nat := 0x20

  /** What follows the sync words: information, label, checksum. */
  function HeaderField(track: bv8, sector: bv8): (r: Stream)
    ensures |r| == 48
  {
    var i := Info(track, sector);
    var o, e := Odds0(i), Evens0(i);
    o + e + Clocks(LABEL) + CheckField(Xor(o[0], e[0]), Xor(o[1], e[1]), Xor(o[2], e[2]), Xor(o[3], e[3]))
  }

  /** Value `c` of the information longword. */
  function InfoOf(s: Stream, c: nat): bv8
    requires |s| == 48 && c < 4
  {
    Join(s[c], s[4 + c])
  }

  /** The decoder accepts a header. */
  predicate HeaderGood(s: Stream)
    requires |s| == 48
  {
    && InfoOf(s, 0) == 0xFF && InfoOf(s, 1) <= 159 && InfoOf(s, 2) <= 10 && InfoOf(s, 3) <= 11 && InfoOf(s, 3) != 0
    && forall c :: 0 <= c < 4 ==> Checked(s[40..], c) == Even(Column(s[..40], c, 10))
  }

  /** An acceptable header names a track and a sector there are, in the data bits of its first eight bytes. */
  lemma HeaderNames(s: Stream)
    requires |s| == 48 && HeaderGood(s)
    ensures InfoOf(s, 1) as nat < 160 && InfoOf(s, 2) as nat < 11 && 1 <= InfoOf(s, 3) as nat <= 11
    ensures InfoOf(s, 0) == 0xFF && s[0] & 0x55 == 0x55 && s[4] & 0x55 == 0x55
    ensures forall c :: 0 <= c < 4 ==> InfoOf(s, c) == ((s[c] & 0x55) << 1) | (s[4 + c] & 0x55)
  {
    assert InfoOf(s, 0) == ((s[0] & 0x55) << 1) | (s[4] & 0x55);
    Ones(s[0], s[4]);
  }

  lemma Ones(a: bv8, b: bv8)
    requires ((a & 0x55) << 1) | (b & 0x55) == 0xFF
    ensures a & 0x55 == 0x55 && b & 0x55 == 0x55
  {
  }

  lemma OddEven(x: bv8)
    ensures Join(Odd(x), Even(x)) == x
    ensures Even(Odd(x)) == Odd(x) && Even(Even(x)) == Even(x)
  {
  }

  lemma EvenXor(a: bv8, b: bv8)
    ensures Even(Xor(a, b)) == Xor(Even(a), Even(b)) && Xor(Xor(0, a), b) == Xor(a, b)
    ensures Even(Xor(a, CLOCK)) == Even(a)
  {
  }

  /** Clock bytes add nothing to a sum. */
  lemma {:induction false} LabelSum(s: Stream, c: nat, n: nat)
    requires c < 4 && 2 <= n <= 10 && |s| == 40 && forall i :: 8 <= i < 40 ==> s[i] == CLOCK
    ensures Even(Column(s, c, n)) == Even(Column(s, c, 2))
  {
    hide Xor(), Even();
    if n > 2 {
      LabelSum(s, c, n - 1);
      EvenXor(Column(s, c, n - 1), 0);
    }
  }

  lemma HeaderSums(track: bv8, sector: bv8, c: nat)
    requires c < 4
    ensures var s, o, e := HeaderField(track, sector), Odds0(Info(track, sector)), Evens0(Info(track, sector));
      Checked(s[40..], c) == Even(Column(s[..40], c, 10)) && InfoOf(s, c) == Info(track, sector)[c]
  {
    hide Xor(), Even(), Odd(), Join(), CheckField(), Checked(), Info(), HeaderField(), Odds0(), Evens0();
    var s, i := HeaderField(track, sector), Info(track, sector);
    var o, e := Odds0(i), Evens0(i);
    HeaderParts(track, sector);
    HeaderHalves(i, c);
    CheckedField(Xor(o[0], e[0]), Xor(o[1], e[1]), Xor(o[2], e[2]), Xor(o[3], e[3]));
    LabelSum(s[..40], c, 10);
    TwoGroups(s[..40], c);
    EvenXor(o[c], e[c]);
    OddEven(i[c]);
  }

  lemma HeaderHalves(i: Stream, c: nat)
    requires |i| == 4 && c < 4
    ensures Odds0(i)[c] == Odd(i[c]) && Evens0(i)[c] == Even(i[c])
  {
  }

  lemma HeaderParts(track: bv8, sector: bv8)
    ensures var s, o, e := HeaderField(track, sector), Odds0(Info(track, sector)), Evens0(Info(track, sector));
      && s[40..] == CheckField(Xor(o[0], e[0]), Xor(o[1], e[1]), Xor(o[2], e[2]), Xor(o[3], e[3]))
      && (forall c :: 0 <= c < 4 ==> s[c] == o[c] && s[4 + c] == e[c])
      && (forall i :: 8 <= i < 40 ==> s[..40][i] == CLOCK)
  {
    hide Xor(), CheckField(), Info(), Odds0(), Evens0(), Clocks();
  }

  lemma TwoGroups(s: Stream, c: nat)
    requires c < 4 && |s| == 40
    ensures Column(s, c, 2) == Xor(Xor(0, s[c]), s[4 + c])
  {
    assert Column(s, c, 0) == 0;
    assert Column(s, c, 1) == Xor(0, s[c]);
  }

  lemma InfoLaws(track: bv8, sector: bv8)
    requires track <= 159 && sector <= 10
    ensures var i := Info(track, sector); i[0] == 0xFF && i[1] == track && i[2] == sector && i[3] <= 11 && i[3] != 0
  {
  }

  /** Round trip of a header. */
  lemma HeaderRoundTrip(track: bv8, sector: bv8)
    requires track <= 159 && sector <= 10
    ensures var s := HeaderField(track, sector); HeaderGood(s) && InfoOf(s, 1) == track && InfoOf(s, 2) == sector
  {
    hide Xor(), Even(), Join(), Column(), Checked(), HeaderField(), Info(), InfoOf();
    InfoLaws(track, sector);
    forall c | 0 <= c < 4
      ensures var s := HeaderField(track, sector);
        Checked(s[40..], c) == Even(Column(s[..40], c, 10)) && InfoOf(s, c) == Info(track, sector)[c]
    {
      HeaderSums(track, sector, c);
    }
  }

  /** The header under corruption of one byte: data bits are protected, clock bits do not matter. */
  lemma HeaderFlip(s: Stream, p: nat, m: bv8)
    requires |s| == 48 && p < 48 && HeaderGood(s)
    ensures HeaderGood(Flip(s, p, m)) <==> Even(m) == 0
    ensures Even(m) == 0 ==> forall c :: 0 <= c < 4 ==> InfoOf(Flip(s, p, m), c) == InfoOf(s, c)
  {
    hide Xor(), Even(), Join(), Column();
    var t := Flip(s, p, m);
    forall c | 0 <= c < 4
      ensures (Checked(t[40..], c) == Even(Column(t[..40], c, 10))) <==> (p % 4 != c || Even(m) == 0)
    {
      HeaderColumn(s, p, m, c);
    }
    assert (Checked(t[40..], p % 4) == Even(Column(t[..40], p % 4, 10))) <==> Even(m) == 0;
    forall c | 0 <= c < 4 && Even(m) == 0 ensures InfoOf(t, c) == InfoOf(s, c) {
      JoinFlip(s[c], s[4 + c], m);
    }
  }

  lemma HeaderColumn(s: Stream, p: nat, m: bv8, c: nat)
    requires |s| == 48 && p < 48 && c < 4 && Checked(s[40..], c) == Even(Column(s[..40], c, 10))
    ensures var t := Flip(s, p, m); (Checked(t[40..], c) == Even(Column(t[..40], c, 10))) <==>
              (p % 4 != c || Even(m) == 0)
  {
    hide Xor(), Even(), Join(), Column();
    var t := Flip(s, p, m);
    if p < 40 {
      assert t[..40] == Flip(s[..40], p, m) && t[40..] == s[40..];
      ColumnFlip(s[..40], p, m, c, 10);
      XorLaws(Column(s[..40], c, 10), 0, m);
    } else {
      assert t[..40] == s[..40] && t[40..] == Flip(s[40..], p - 40, m);
      JoinFlip(s[40 + c], s[44 + c], m);
    }
  }

  // ---------------------------------------------------------------- sectors and tracks

  /** A sector on the wire. */
  function SectorBytes(data: Stream, sector: bv8, track: bv8, syncHigh: bv8, syncLow: bv8): (r: Stream)
    requires |data| == SECTOR
    ensures |r| == SECTOR_SIZE
  {
    Clocks(4) + [syncHigh, syncLow, syncHigh, syncLow] + HeaderField(track, sector) + DataField(data)
  }

  /** What stands where in an encoded sector: clock bytes, the synchronization word twice, format, track, sector, and
      distance to the gap in halves, the label, checksums with the clock bits set, and the halves of the data. */
  lemma SectorLayout(data: Stream, sector: bv8, track: bv8, high: bv8, low: bv8)
    requires |data| == SECTOR
    ensures var r := SectorBytes(data, sector, track, high, low);
      && |r| == 1088
      && (forall i :: 0 <= i < 4 || 16 <= i < 52 || 56 <= i < 60 ==> r[i] == 0xAA)
      && r[4..8] == [high, low, high, low]
      && r[8..12] == [0x55, (track >> 1) & 0x55, (sector >> 1) & 0x55, ((11 - sector) >> 1) & 0x55]
      && r[12..16] == [0x55, track & 0x55, sector & 0x55, (11 - sector) & 0x55]
      && r[52..56] == [Summed(r[8], r[12]), Summed(r[9], r[13]), Summed(r[10], r[14]), Summed(r[11], r[15])]
      && (forall c: nat :: c < 4 ==> r[c + 60] == Folded(data, c, 128) | 0xAA)
      && (forall i :: 0 <= i < 512 ==> r[64 + i] == (data[i] >> 1) | 0xAA)
      && (forall i :: 0 <= i < 512 ==> r[576 + i] == data[i] | 0xAA)
  {
    hide Folded, Clocks, HeaderField, DataField, Summed;
    DataLayout(data);
    var r, h, d := SectorBytes(data, sector, track, high, low), HeaderField(track, sector), DataField(data);
    HeaderLayout(track, sector);
    assert h == r[8..56] && d == r[56..];
    assert r[8..12] == h[..4] && r[12..16] == h[4..8];
    assert forall i :: 0 <= i < 48 ==> r[8 + i] == h[i];
    assert r[52..56] == h[44..48];
    assert forall i :: 0 <= i < 1032 ==> r[56 + i] == d[i];
  }

  /** A header's checksum byte from the two halves of an information byte. */
  function Summed(odd: bv8, even: bv8): bv8 {
    (odd ^ even) | 0xAA
  }

  lemma DataLayout(data: Stream)
    requires |data| == SECTOR
    ensures var d := DataField(data);
      && (forall i :: 0 <= i < 4 ==> d[i] == 0xAA)
      && (forall c: nat :: c < 4 ==> d[c + 4] == Folded(data, c, 128) | 0xAA)
      && (forall i :: 0 <= i < 512 ==> d[8 + i] == (data[i] >> 1) | 0xAA)
      && (forall i :: 0 <= i < 512 ==> d[520 + i] == data[i] | 0xAA)
  {
    hide Folded, Odds, Evens;
  }

  lemma HeaderLayout(track: bv8, sector: bv8)
    ensures var h := HeaderField(track, sector);
      && h[..4] == [0x55, (track >> 1) & 0x55, (sector >> 1) & 0x55, ((11 - sector) >> 1) & 0x55]
      && h[4..8] == [0x55, track & 0x55, sector & 0x55, (11 - sector) & 0x55]
      && (forall i :: 8 <= i < 44 ==> h[i] == 0xAA)
      && h[44..48] == [Summed(h[0], h[4]), Summed(h[1], h[5]), Summed(h[2], h[6]), Summed(h[3], h[7])]
  {
    hide Clocks, HeaderField, CheckField, Odd, Even, Summed, Xor;
    var h := HeaderField(track, sector);
    HeaderParts(track, sector);
    HalfLaws(0xFF, track);
    HalfLaws(sector, 11 - sector);
    assert h[..4] == [h[0], h[1], h[2], h[3]] && h[4..8] == [h[4], h[5], h[6], h[7]];
    assert forall i :: 8 <= i < 40 ==> h[..40][i] == h[i];
    CheckLayout(h[0], h[1], h[2], h[3], h[4], h[5], h[6], h[7]);
    assert forall i :: 0 <= i < 8 ==> h[40..][i] == h[40 + i];
    assert h[44..48] == h[40..][4..];
  }

  lemma HalfLaws(a: bv8, b: bv8)
    ensures Odd(a) == (a >> 1) & 0x55 && Even(a) == a & 0x55 && Odd(b) == (b >> 1) & 0x55 && Even(b) == b & 0x55
    ensures Odd(0xFF) == Even(0xFF) == 0x55
  {
  }

  lemma CheckLayout(a: bv8, b: bv8, c: bv8, d: bv8, e: bv8, f: bv8, g: bv8, h: bv8)
    ensures var r := CheckField(Xor(a, e), Xor(b, f), Xor(c, g), Xor(d, h));
      r[0] == r[1] == r[2] == r[3] == 0xAA && r[4..] == [Summed(a, e), Summed(b, f), Summed(c, g), Summed(d, h)]
  {
  }

  /** The first `n` sectors of a track. */
  function SectorsBytes(image: seq<Stream>, n: nat, track: bv8, syncHigh: bv8, syncLow: bv8): (r: Stream)
    requires n <= |image| == SECTORS && forall i :: 0 <= i < SECTORS ==> |image[i]| == SECTOR
    ensures |r| == n * SECTOR_SIZE
  {
    if n == 0 then []
    else SectorsBytes(image, n - 1, track, syncHigh, syncLow)
         + SectorBytes(image[n - 1], (n - 1) as bv8, track, syncHigh, syncLow)
  }

  /** A whole track: eleven sectors and the gap, always as long as the drive expects. */
  function TrackBytes(image: seq<Stream>, track: bv8, syncHigh: bv8, syncLow: bv8): (r: Stream)
    requires |image| == SECTORS && forall i :: 0 <= i < SECTORS ==> |image[i]| == SECTOR
    ensures |r| == TRACK_SIZE
  {
    SectorsBytes(image, SECTORS, track, syncHigh, syncLow) + Clocks(GAP_SIZE)
  }

  /** Sector `n` of a track begins 1088 bytes times `n` from its start, and 700 clock bytes follow the last. */
  lemma TrackLayout(image: seq<Stream>, track: bv8, high: bv8, low: bv8, n: nat)
    requires Image(image) && n < 11
    ensures var r := TrackBytes(image, track, high, low);
      && |r| == 12668 && (forall i :: 11968 <= i < 12668 ==> r[i] == 0xAA)
      && r[1088 * n..1088 * n + 1088] == SectorBytes(image[n], n as bv8, track, high, low)
  {
    hide SectorBytes, Clocks;
    SectorPlace(image, 11, track, high, low, n);
    var s := SectorsBytes(image, 11, track, high, low);
    assert TrackBytes(image, track, high, low)[1088 * n..1088 * n + 1088] == s[1088 * n..1088 * n + 1088];
  }

  lemma {:induction false} SectorPlace(image: seq<Stream>, m: nat, track: bv8, high: bv8, low: bv8, n: nat)
    requires Image(image) && n < m <= 11
    ensures var s := SectorsBytes(image, m, track, high, low);
      |s| == 1088 * m && s[1088 * n..1088 * n + 1088] == SectorBytes(image[n], n as bv8, track, high, low)
  {
    hide SectorBytes;
    var s := SectorsBytes(image, m, track, high, low);
    var before, last := SectorsBytes(image, m - 1, track, high, low),
      SectorBytes(image[m - 1], (m - 1) as bv8, track, high, low);
    assert s == before + last && |before| == 1088 * (m - 1) && |last| == 1088;
    hide SectorsBytes;
    if n < m - 1 {
      SectorPlace(image, m - 1, track, high, low, n);
      assert 1088 * n + 1088 <= |before|;
      assert s[1088 * n..1088 * n + 1088] == before[1088 * n..1088 * n + 1088];
    } else {
      assert n == m - 1 && |before| == 1088 * n && |s| == 1088 * n + 1088;
      assert s[1088 * n..1088 * n + 1088] == last;
    }
  }

  predicate Image(image: seq<Stream>) {
    |image| == SECTORS && forall i :: 0 <= i < SECTORS ==> |image[i]| == SECTOR
  }

  /** A sector, with the gap behind the last one. */
  function Passing(image: seq<Stream>, track: bv8, sector: nat, sync: (bv8, bv8)): (r: Stream)
    requires Image(image) && sector < SECTORS
    ensures |r| == SECTOR_SIZE + if sector == SECTORS - 1 then GAP_SIZE else 0
  {
    SectorBytes(image[sector], sector as bv8, track, sync.0, sync.1)
    + (if sector == SECTORS - 1 then Clocks(GAP_SIZE) else [])
  }

  /** The sector under the head `n` sectors after sector `from`. */
  function Turned(from: nat, n: nat): (sector: nat)
    ensures sector < SECTORS
  {
    (from + n) % SECTORS
  }

  /** What turns past the head from sector `from` on, one sector for each synchronization word. */
  function Rotation(image: seq<Stream>, track: bv8, from: nat, syncs: seq<(bv8, bv8)>): (r: Stream)
    requires Image(image)
  {
    if syncs == [] then [] else
      var n := |syncs| - 1;
      Rotation(image, track, from, syncs[..n]) + Passing(image, track, Turned(from, n), syncs[n])
  }

  lemma RotationStep(image: seq<Stream>, track: bv8, from: nat, syncs: seq<(bv8, bv8)>, sync: (bv8, bv8))
    requires Image(image)
    ensures Rotation(image, track, from, []) == []
    ensures Rotation(image, track, from, syncs + [sync])
         == Rotation(image, track, from, syncs) + Passing(image, track, Turned(from, |syncs|), sync)
  {
    hide Passing, Turned;
    assert (syncs + [sync])[..|syncs|] == syncs;
  }

  /** A read that goes on where the one before stopped sends what one read would have sent. */
  lemma {:induction false} Resumed(image: seq<Stream>, track: bv8, from: nat, s: seq<(bv8, bv8)>, t: seq<(bv8, bv8)>)
    requires Image(image)
    ensures Rotation(image, track, from, s + t)
         == Rotation(image, track, from, s) + Rotation(image, track, Turned(from, |s|), t)
  {
    hide Rotation, Passing, Turned;
    var middle := Turned(from, |s|);
    if t == [] {
      RotationStep(image, track, middle, t, (0, 0));
      assert s + t == s;
    } else {
      var n := |t| - 1;
      Resumed(image, track, from, s, t[..n]);
      SectorOf(from, |s|, n);
      RotationStep(image, track, from, s + t[..n], t[n]);
      RotationStep(image, track, middle, t[..n], t[n]);
      assert s + t == (s + t[..n]) + [t[n]] && t == t[..n] + [t[n]];
    }
  }

  /** The next sector, as the loop counts it. */
  lemma SectorAfter(from: nat, n: nat)
    ensures from < SECTORS ==> Turned(from, 0) == from
    ensures Turned(from, n + 1) == if Turned(from, n) + 1 < SECTORS then Turned(from, n) + 1 else 0
  {
  }

  lemma SectorOf(from: nat, m: nat, n: nat)
    ensures Turned(from, m + n) == Turned(Turned(from, m), n)
  {
    var x := from + m;
    assert x == SECTORS * (x / SECTORS) + x % SECTORS;
    SameSector(x / SECTORS, x % SECTORS + n);
  }

  lemma SameSector(turns: nat, y: nat)
    ensures (SECTORS * turns + y) % SECTORS == y % SECTORS
  {
    var x := SECTORS * turns + y;
    var d := x / SECTORS - turns - y / SECTORS;
    assert SECTORS * d == y % SECTORS - x % SECTORS;
    assert d == 0;
  }

  lemma SectorSmall(from: nat, n: nat)
    requires from + n < 2 * SECTORS
    ensures Turned(from, n) == if from + n < SECTORS then from + n else from + n - SECTORS
  {
  }

  /** Eleven sectors from the beginning of a track with one synchronization word are the whole track. */
  lemma OneTurn(image: seq<Stream>, track: bv8, syncs: seq<(bv8, bv8)>, high: bv8, low: bv8)
    requires Image(image) && |syncs| == SECTORS && forall i :: 0 <= i < SECTORS ==> syncs[i] == (high, low)
    ensures Rotation(image, track, 0, syncs) == TrackBytes(image, track, high, low)
  {
    hide SectorBytes, Clocks, Turned;
    SectorSmall(0, SECTORS - 1);
    PartOfTurn(image, track, syncs, SECTORS - 1, high, low);
  }

  lemma {:induction false} PartOfTurn(image: seq<Stream>, track: bv8, syncs: seq<(bv8, bv8)>, n: nat, high: bv8,
      low: bv8)
    requires Image(image) && n <= |syncs| && n < SECTORS && forall i :: 0 <= i < |syncs| ==> syncs[i] == (high, low)
    ensures Rotation(image, track, 0, syncs[..n]) == SectorsBytes(image, n, track, high, low)
  {
    hide SectorBytes, Clocks, Turned;
    if n > 0 {
      SectorSmall(0, n - 1);
      PartOfTurn(image, track, syncs, n - 1, high, low);
      assert syncs[..n][..n - 1] == syncs[..n - 1];
    }
  }

  /** Wherever a turn begins, it is as long as a track. */
  lemma TurnLength(image: seq<Stream>, track: bv8, from: nat, syncs: seq<(bv8, bv8)>)
    requires Image(image) && from < SECTORS && |syncs| == SECTORS
    ensures |Rotation(image, track, from, syncs)| == TRACK_SIZE
  {
    PartLength(image, track, from, syncs);
  }

  lemma {:induction false} PartLength(image: seq<Stream>, track: bv8, from: nat, syncs: seq<(bv8, bv8)>)
    requires Image(image) && from < SECTORS && |syncs| <= SECTORS
    ensures |Rotation(image, track, from, syncs)| ==
              |syncs| * SECTOR_SIZE + if from + |syncs| >= SECTORS then GAP_SIZE else 0
  {
    hide Passing, Turned;
    if syncs != [] {
      SectorSmall(from, |syncs| - 1);
      PartLength(image, track, from, syncs[..|syncs| - 1]);
    }
  }

  // ---------------------------------------------------------------- sums over two stretches

  lemma XorChain(a: bv8, b: bv8, c: bv8)
    ensures Xor(a, 0) == a && Xor(Xor(a, b), c) == Xor(a, Xor(b, c))
  {
  }

  lemma {:induction false} ColumnJoin(s: Stream, t: Stream, c: nat, m: nat, n: nat)
    requires c < 4 && |s| == 4 * m && 4 * n <= |t|
    ensures Column(s + t, c, m + n) == Xor(Column(s, c, m), Column(t, c, n))
  {
    hide Xor();
    if n == 0 {
      ColumnPrefix(s, t, c, m);
      XorChain(Column(s, c, m), 0, 0);
    } else {
      ColumnJoin(s, t, c, m, n - 1);
      assert (s + t)[4 * (m + n - 1) + c] == t[4 * (n - 1) + c];
      XorChain(Column(s, c, m), Column(t, c, n - 1), t[4 * (n - 1) + c]);
    }
  }

  lemma {:induction false} ColumnPrefix(s: Stream, t: Stream, c: nat, m: nat)
    requires c < 4 && 4 * m <= |s|
    ensures Column(s + t, c, m) == Column(s, c, m)
  {
    hide Xor();
    if m > 0 {
      ColumnPrefix(s, t, c, m - 1);
    }
  }

  /** The two synchronization bytes stand at `p`. */
  predicate SyncAt(f: Stream, p: nat) {
    p + 1 < |f| && f[p] == 0x44 && f[p + 1] == 0x89
  }
}
