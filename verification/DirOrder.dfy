/** Directory entries, the order the file browser sorts them by, and the sorted listing of a directory. */
module DirOrder {
  import opened Basics

  const SHORT: nat := 11
  const LONGEST: nat := 260

  const ATTR_HIDDEN: bv8 := 0x02
  const ATTR_VOLUME: bv8 := 0x08
  const ATTR_DIRECTORY: bv8 := 0x10
  const ATTR_LFN: bv8 := 0x0F

  const SLOT_EMPTY: int := 0x00
  const SLOT_DELETED: int := 0xe5

  /** A string of character codes, without its terminating zero. */
  type Text = seq<int>

  /** A directory entry: blank-filled name and extension, attributes, first cluster, and its long name, empty when it
      has none. */
  datatype Entry = Entry(name: Text, attributes: bv8, cluster: nat, lfn: Text)
  {
    predicate Sound() {
      && |name| == SHORT && |lfn| <= LONGEST
      && (forall i :: 0 <= i < |name| ==> name[i] != 0) && (forall i :: 0 <= i < |lfn| ==> lfn[i] != 0)
    }

    predicate IsDirectory() {
      attributes & ATTR_DIRECTORY != 0
    }

    /** The name it is sorted by. */
    function Name(): Text {
      if lfn != [] then lfn else name
    }
  }

  function ToLower(c: int): int {
    if 'A' as int <= c <= 'Z' as int then c + 32 else c
  }

  /** Only the 26 capital letters change, each to its small letter. */
  lemma SmallLetters(c: int)
    ensures 'A' as int <= c <= 'Z' as int ==> ToLower(c) - 'a' as int == c - 'A' as int
    ensures c < 'A' as int || c > 'Z' as int ==> ToLower(c) == c
  {
  }

  /** Character `i` of a zero-terminated string. */
  function Char(s: Text, i: nat): int {
    if i < |s| then s[i] else 0
  }

  /** Behind its end a string reads as zero, which stands before every character a name may hold. */
  lemma EndIsZero(s: Text, i: nat)
    ensures (forall c :: c in s ==> c > 0) ==> (Char(s, i) == 0 <==> i >= |s|) && Char(s, i) >= 0
  {
    assert i < |s| ==> s[i] in s;
  }

  function Fold(s: Text, i: nat): int {
    ToLower(Char(s, i))
  }

  /** The strings agree in their first `d` characters, letter case aside. */
  predicate Same(s: Text, t: Text, d: nat) {
    forall i :: 0 <= i < d ==> Fold(s, i) == Fold(t, i)
  }

  /** Difference of the first characters that differ among the first `n`, which must not lie behind both ends. */
  method StrnICmp(s1: Text, s2: Text, n: nat) returns (v: int)
    requires n > 0
    requires (forall i :: 0 <= i < |s1| ==> s1[i] != 0) && (forall i :: 0 <= i < |s2| ==> s2[i] != 0)
    ensures v == 0 ==> Same(s1, s2, n)
    ensures v != 0 ==> exists d: nat :: d < n && Same(s1, s2, d) && v == Fold(s1, d) - Fold(s2, d)
  {
    var c1, c2 := Char(s1, 0), Char(s2, 0);
    v := ToLower(c1) - ToLower(c2);
    var i: nat := 0;
    while v == 0 && c1 != 0 && i + 1 < n
      invariant i < n && c1 == Char(s1, i) && v == Fold(s1, i) - Fold(s2, i) && Same(s1, s2, i)
      decreases n - i
    {
      i := i + 1;
      c1, c2 := Char(s1, i), Char(s2, i);
      v := ToLower(c1) - ToLower(c2);
    }
    if v == 0 && c1 == 0 {
      assert forall j :: i < j ==> Fold(s1, j) == 0;
      assert i >= |s1|;
      assert Fold(s2, i) == 0;
      assert i >= |s2|;
      assert forall j :: i < j ==> Fold(s2, j) == 0;
    }
  }

  // ---------------------------------------------------------------- the order as one key

  /** Characters `from` up to `to`, zeros behind the end, letter case aside. */
  function Stretch(s: Text, from: nat, to: nat): (r: seq<int>)
    requires from <= to
    ensures |r| == to - from
    ensures forall i :: 0 <= i < |r| ==> r[i] == Fold(s, from + i)
  {
    seq(to - from, i requires 0 <= i < to - from => Fold(s, from + i))
  }

  const KEY: nat := LONGEST + 2

  /** What entries are sorted by: directories first, then eleven characters, then short names before long ones, then
      the rest of a long name. */
  function Key(e: Entry): (k: seq<int>)
    ensures |k| == KEY
  {
    [if e.IsDirectory() then 0 else 1] + Stretch(e.Name(), 0, SHORT) + [if e.lfn != [] then 1 else 0]
    + (if e.lfn != [] then Stretch(e.lfn, SHORT, LONGEST) else Stretch([], SHORT, LONGEST))
  }

  predicate SplitsAt(a: seq<int>, b: seq<int>, d: nat)
    requires |a| == |b|
  {
    d < |a| && (forall i :: 0 <= i < d ==> a[i] == b[i]) && a[d] < b[d]
  }

  /** Lexicographic order of keys. */
  ghost predicate Below(a: seq<int>, b: seq<int>)
    requires |a| == |b|
  {
    exists d: nat :: SplitsAt(a, b, d)
  }

  lemma FirstDifference(a: seq<int>, b: seq<int>) returns (d: nat)
    requires |a| == |b|
    ensures d <= |a| && forall i :: 0 <= i < d ==> a[i] == b[i]
    ensures d < |a| ==> a[d] != b[d]
  {
    d := 0;
    while d < |a| && a[d] == b[d]
      invariant d <= |a| && forall i :: 0 <= i < d ==> a[i] == b[i]
    {
      d := d + 1;
    }
  }

  lemma BelowTotal(a: seq<int>, b: seq<int>)
    requires |a| == |b|
    ensures Below(a, b) || Below(b, a) || a == b
    ensures !(Below(a, b) && Below(b, a)) && !Below(a, a)
  {
    var d := FirstDifference(a, b);
    if d < |a| {
      assert SplitsAt(a, b, d) || SplitsAt(b, a, d);
    }
  }

  lemma BelowTransitive(a: seq<int>, b: seq<int>, c: seq<int>)
    requires |a| == |b| == |c| && Below(a, b) && Below(b, c)
    ensures Below(a, c)
  {
    var d: nat :| SplitsAt(a, b, d);
    var e: nat :| SplitsAt(b, c, e);
    assert SplitsAt(a, c, if d < e then d else e);
  }

  /** Where, in the key, characters of the name are. */
  lemma KeyParts(e: Entry)
    ensures Key(e)[0] == (if e.IsDirectory() then 0 else 1)
    ensures forall i :: 0 < i <= SHORT ==> Key(e)[i] == Fold(e.Name(), i - 1)
    ensures Key(e)[1 + SHORT] == if e.lfn != [] then 1 else 0
    ensures forall i :: SHORT + 1 < i < KEY ==> Key(e)[i] == Fold(e.lfn, i - 2)
  {
  }

  /** Where two names first differ, their keys do. */
  lemma NamesDiffer(e: Entry, f: Entry, d: nat)
    requires e.IsDirectory() == f.IsDirectory() && Same(e.Name(), f.Name(), d) && Fold(e.Name(), d) < Fold(f.Name(), d)
    requires d < 11 || (d < 260 && e.lfn != [] && f.lfn != [])
    ensures Below(Key(e), Key(f))
  {
    hide Key();
    KeyParts(e);
    KeyParts(f);
    var a, b, x := Key(e), Key(f), if d < SHORT then 1 + d else 2 + d;
    forall i | 0 <= i < x ensures a[i] == b[i] {
      if 1 <= i <= SHORT {
        assert Fold(e.Name(), i - 1) == Fold(f.Name(), i - 1);
      } else if i > SHORT + 1 {
        assert Fold(e.Name(), i - 2) == Fold(f.Name(), i - 2);
      }
    }
    assert SplitsAt(a, b, x);
  }

  /** Names that agree as far as they are compared: a short name stands before a long one. */
  lemma NamesAgree(e: Entry, f: Entry)
    requires e.IsDirectory() == f.IsDirectory()
    requires Same(e.Name(), f.Name(), if e.lfn != [] && f.lfn != [] then 260 else 11)
    ensures (e.lfn == []) == (f.lfn == []) ==> Key(e) == Key(f)
    ensures e.lfn == [] && f.lfn != [] ==> Below(Key(e), Key(f))
  {
    hide Key();
    KeyParts(e);
    KeyParts(f);
    var a, b := Key(e), Key(f);
    forall i | 0 <= i <= SHORT ensures a[i] == b[i] {
      if i > 0 {
        assert Fold(e.Name(), i - 1) == Fold(f.Name(), i - 1);
      }
    }
    if e.lfn == [] && f.lfn != [] {
      assert SplitsAt(a, b, SHORT + 1);
    } else if (e.lfn == []) == (f.lfn == []) {
      forall i | SHORT + 1 < i < KEY ensures a[i] == b[i] {
        assert e.lfn != [] ==> Fold(e.lfn, i - 2) == Fold(f.lfn, i - 2);
      }
      assert a[SHORT + 1] == b[SHORT + 1];
      assert forall i :: 0 <= i < KEY ==> a[i] == b[i];
    }
  }

  lemma DirectoriesFirst(e: Entry, f: Entry)
    requires e.attributes & 0x10 != 0 && f.attributes & 0x10 == 0
    ensures Below(Key(e), Key(f))
  {
    assert e.IsDirectory() && !f.IsDirectory();
    hide Key();
    KeyParts(e);
    KeyParts(f);
    assert SplitsAt(Key(e), Key(f), 0);
  }

  /** Compares two entries the way the directory browser does. */
  method CompareDirEntries(e1: Entry, e2: Entry) returns (rc: int)
    requires e1.Sound() && e2.Sound()
    ensures rc < 0 <==> Below(Key(e1), Key(e2))
    ensures rc > 0 <==> Below(Key(e2), Key(e1))
    ensures rc == 0 <==> Key(e1) == Key(e2)
  {
    hide Key(), Below();
    BelowTotal(Key(e1), Key(e2));
    if e1.IsDirectory() && !e2.IsDirectory() {
      DirectoriesFirst(e1, e2);
      return -1;
    }
    if !e1.IsDirectory() && e2.IsDirectory() {
      DirectoriesFirst(e2, e1);
      return 1;
    }
    var len := LONGEST;
    var str1, str2 := e1.lfn, e2.lfn;
    if e1.lfn == [] {
      str1, len := e1.name, SHORT;
    }
    if e2.lfn == [] {
      str2, len := e2.name, SHORT;
    }
    rc := StrnICmp(str1, str2, len);
    if rc == 0 {
      NamesAgree(e1, e2);
      NamesAgree(e2, e1);
      if e1.lfn != [] {
        if e2.lfn == [] {
          rc := 1;
        }
      } else {
        if e2.lfn != [] {
          rc := -1;
        }
      }
    } else {
      ghost var d: nat :| d < len && Same(str1, str2, d) && rc == Fold(str1, d) - Fold(str2, d);
      if rc < 0 {
        NamesDiffer(e1, e2, d);
      } else {
        NamesDiffer(e2, e1, d);
      }
    }
  }

  // ---------------------------------------------------------------- what a scan shows

  /** What the caller asks to see: an extension, and whether directories are shown with any. */
  datatype Filter = Filter(extension: Text, directories: bool)

  const ISO_CUE: Text := ['I' as int, 'S' as int, 'O' as int, ',' as int, 'C' as int, 'U' as int, 'E' as int]
  const CUE: Text := ['C' as int, 'U' as int, 'E' as int]

  /** The first three characters agree, as far as the strings go. */
  predicate Agree3(s: Text, t: Text) {
    && Char(s, 0) == Char(t, 0)
    && (Char(s, 0) != 0 ==> Char(s, 1) == Char(t, 1) && (Char(s, 1) != 0 ==> Char(s, 2) == Char(t, 2)))
  }

  predicate Qualifies(e: Entry, f: Filter) {
    && Char(e.name, 0) != SLOT_EMPTY && Char(e.name, 0) != SLOT_DELETED && e.attributes != ATTR_LFN
    && e.attributes & (ATTR_VOLUME | ATTR_HIDDEN) == 0
    && (Char(e.name, 0) != '.' as int || Char(e.name, 1) != ' ' as int)
    && var extension := if |e.name| >= 8 then e.name[8..] else [];
    && (|| Char(f.extension, 0) == '*' as int || Agree3(extension, f.extension)
        || (f.extension == ISO_CUE && Agree3(extension, CUE)) || (f.directories && e.IsDirectory()))
  }

  /** What is never shown: unused and deleted slots, parts of long names, hidden entries, volume labels, and the entry
      of the directory itself. */
  lemma NeverShown(e: Entry, f: Filter)
    requires e.Sound() && Qualifies(e, f)
    ensures e.name[0] != 0 && e.name[0] != 0xe5 && e.attributes != 0x0F
    ensures e.attributes & 0x02 == 0 && e.attributes & 0x08 == 0
    ensures !(e.name[0] == '.' as int && e.name[1] == ' ' as int)
  {
    HiddenOrLabel(e.attributes);
  }

  lemma HiddenOrLabel(a: bv8)
    ensures a & (ATTR_VOLUME | ATTR_HIDDEN) == 0 <==> a & 0x02 == 0 && a & 0x08 == 0
  {
  }

  /** Everything else is shown if its extension is the one asked for, any is, the caller wants directories and it is
      one, or it is a CUE sheet and disc images are asked for. */
  lemma ShownByExtension(e: Entry, f: Filter)
    requires e.Sound() && |f.extension| >= 3 && forall i :: 0 <= i < |f.extension| ==> f.extension[i] != 0
    requires e.name[0] != 0xe5 && e.attributes != 0x0F && e.attributes & 0x02 == 0 && e.attributes & 0x08 == 0
    requires !(e.name[0] == '.' as int && e.name[1] == ' ' as int)
    ensures Qualifies(e, f) <==>
              || f.extension[0] == '*' as int
              || (e.name[8] == f.extension[0] && e.name[9] == f.extension[1] && e.name[10] == f.extension[2])
              || (f.extension == ISO_CUE
                  && e.name[8] == 'C' as int && e.name[9] == 'U' as int && e.name[10] == 'E' as int)
              || (f.directories && e.attributes & 0x10 != 0)
  {
    HiddenOrLabel(e.attributes);
  }

  /** Qualifying entries are well formed and pairwise different under the comparison. */
  predicate Proper(d: seq<Entry>, f: Filter) {
    && (forall j :: 0 <= j < |d| && Qualifies(d[j], f) ==> d[j].Sound())
    && (forall i, j :: 0 <= i < j < |d| && Qualifies(d[i], f) && Qualifies(d[j], f) ==> Key(d[i]) != Key(d[j]))
  }

  /** They are different if their names differ among the first eleven characters, letter case aside. */
  lemma DifferentNames(d: seq<Entry>, f: Filter)
    requires forall j :: 0 <= j < |d| && Qualifies(d[j], f) ==> d[j].Sound()
    requires forall i, j :: 0 <= i < j < |d| && Qualifies(d[i], f) && Qualifies(d[j], f) ==>
               !Same(d[i].Name(), d[j].Name(), 11)
    ensures Proper(d, f)
  {
    hide Key, Qualifies;
    forall i, j | 0 <= i < j < |d| && Qualifies(d[i], f) && Qualifies(d[j], f) ensures Key(d[i]) != Key(d[j]) {
      KeyParts(d[i]);
      KeyParts(d[j]);
      var c :| 0 <= c < 11 && Fold(d[i].Name(), c) != Fold(d[j].Name(), c);
      assert Key(d[i])[c + 1] != Key(d[j])[c + 1];
    }
  }

  ghost predicate Ascending(l: seq<Entry>) {
    forall i, j :: 0 <= i < j < |l| ==> Below(Key(l[i]), Key(l[j]))
  }

  predicate Appears(d: seq<Entry>, f: Filter, e: Entry) {
    Qualifies(e, f) && exists j :: 0 <= j < |d| && d[j] == e
  }

  /** `l` is the sorted listing: strictly ascending, and exactly the qualifying entries. */
  ghost predicate IsListing(d: seq<Entry>, f: Filter, l: seq<Entry>) {
    && Ascending(l) && (forall i :: 0 <= i < |l| ==> l[i].Sound())
    && (forall e :: e in l <==> Appears(d, f, e))
  }

  /** In a listing, position and order say the same. */
  lemma PositionOrder(l: seq<Entry>, a: nat, b: nat)
    requires Ascending(l) && a < |l| && b < |l|
    ensures Below(Key(l[a]), Key(l[b])) <==> a < b
    ensures Key(l[a]) == Key(l[b]) <==> a == b
  {
    BelowTotal(Key(l[a]), Key(l[b]));
  }

  /** For every slot of the directory, its position in the listing; -1 if it is not shown. */
  function Ranks(d: seq<Entry>, l: seq<Entry>): (r: seq<int>)
    ensures |r| == |d|
    ensures forall j :: 0 <= j < |d| ==> if d[j] in l then 0 <= r[j] < |l| && l[r[j]] == d[j] else r[j] == -1
  {
    seq(|d|, j requires 0 <= j < |d| => if d[j] in l then Find(l, d[j]) else -1)
  }

  function Span(lo: int, hi: int): (s: set<int>)
    ensures forall x :: x in s <==> lo <= x < hi
    decreases hi - lo
  {
    if hi <= lo then {} else Span(lo, hi - 1) + {hi - 1}
  }

  /** Positions met among the first `n` slots. */
  function Met(ranks: seq<int>, n: nat): set<int>
    requires n <= |ranks|
  {
    set j | 0 <= j < n && ranks[j] >= 0 :: ranks[j]
  }

  lemma MetNext(ranks: seq<int>, n: nat)
    requires n < |ranks|
    ensures Met(ranks, n + 1) == Met(ranks, n) + if ranks[n] >= 0 then {ranks[n]} else {}
  {
  }

  /** A slot has a position exactly if it qualifies. */
  lemma RankedQualify(d: seq<Entry>, f: Filter, l: seq<Entry>)
    requires IsListing(d, f, l)
    ensures forall n :: 0 <= n < |d| ==> (Qualifies(d[n], f) <==> Ranks(d, l)[n] >= 0)
  {
    hide Ascending(), Qualifies();
    forall n | 0 <= n < |d| ensures Qualifies(d[n], f) <==> d[n] in l { }
  }

  /** Each position is met once... */
  lemma MetOnce(d: seq<Entry>, f: Filter, l: seq<Entry>)
    requires Proper(d, f) && IsListing(d, f, l)
    ensures forall n :: 0 <= n < |d| ==> Ranks(d, l)[n] !in Met(Ranks(d, l), n)
  {
    hide Ascending(), Qualifies(), IsListing();
    RankedQualify(d, f, l);
  }

  /** ... and in the end every one is. */
  lemma MetAll(d: seq<Entry>, f: Filter, l: seq<Entry>)
    requires IsListing(d, f, l)
    ensures Met(Ranks(d, l), |d|) == Span(0, |l|)
  {
    hide Qualifies();
    var r := Ranks(d, l);
    forall x: int | 0 <= x < |l| ensures x in Met(r, |d|) {
      assert l[x] in l;
      var j :| 0 <= j < |d| && d[j] == l[x];
      PositionOrder(l, x, r[j]);
    }
  }

  // ---------------------------------------------------------------- the listing exists and is unique

  /** Position at which `e` belongs. */
  ghost function Place(l: seq<Entry>, e: Entry): (k: nat)
    requires Ascending(l)
    ensures k <= |l|
    ensures forall i :: 0 <= i < k ==> Below(Key(l[i]), Key(e))
    ensures k < |l| ==> !Below(Key(l[k]), Key(e))
  {
    if l == [] || !Below(Key(l[0]), Key(e)) then 0 else 1 + Place(l[1..], e)
  }

  lemma {:induction false} ListingExists(d: seq<Entry>, f: Filter) returns (l: seq<Entry>)
    requires Proper(d, f)
    ensures IsListing(d, f, l)
  {
    hide Key(), Qualifies();
    if d == [] {
      return [];
    }
    var n := |d| - 1;
    var e := d[n];
    var m := ListingExists(d[..n], f);
    if !Qualifies(e, f) {
      l := m;
    } else {
      var k := Place(m, e);
      l := m[..k] + [e] + m[k..];
      NotYet(d, f, m);
      Inserted(m, k, e);
    }
    ShownGrow(d, f, m, l);
  }

  /** The sorted listing of a directory. */
  ghost function Listing(d: seq<Entry>, f: Filter): (l: seq<Entry>)
    requires Proper(d, f)
    ensures IsListing(d, f, l)
  {
    HasListing(d, f);
    var l :| IsListing(d, f, l);
    l
  }

  lemma HasListing(d: seq<Entry>, f: Filter)
    requires Proper(d, f)
    ensures exists l :: IsListing(d, f, l)
  {
    var l := ListingExists(d, f);
  }

  lemma NotYet(d: seq<Entry>, f: Filter, m: seq<Entry>)
    requires d != [] && Proper(d, f) && IsListing(d[..|d| - 1], f, m) && Qualifies(d[|d| - 1], f)
    ensures forall i :: 0 <= i < |m| ==> Key(m[i]) != Key(d[|d| - 1])
  {
    hide Key(), Qualifies(), Ascending();
    var n := |d| - 1;
    forall i | 0 <= i < |m| ensures Key(m[i]) != Key(d[n]) {
      assert m[i] in m;
      var j :| 0 <= j < n && d[..n][j] == m[i];
      assert d[j] == m[i];
    }
  }

  lemma ShownGrow(d: seq<Entry>, f: Filter, m: seq<Entry>, l: seq<Entry>)
    requires d != []
    requires forall e :: e in m <==> Appears(d[..|d| - 1], f, e)
    requires forall e :: e in l <==> e in m || (e == d[|d| - 1] && Qualifies(e, f))
    ensures forall e :: e in l <==> Appears(d, f, e)
  {
    hide Qualifies();
    var n := |d| - 1;
    forall x ensures x in l <==> Appears(d, f, x) {
      if x in m {
        var j :| 0 <= j < n && d[..n][j] == x;
        assert d[j] == x;
      }
      if Appears(d, f, x) {
        var j :| 0 <= j < |d| && d[j] == x;
        assert j < n ==> d[..n][j] == x;
      }
    }
  }

  lemma Inserted(m: seq<Entry>, k: nat, e: Entry)
    requires Ascending(m) && k <= |m| && forall i :: 0 <= i < k ==> Below(Key(m[i]), Key(e))
    requires k < |m| ==> !Below(Key(m[k]), Key(e)) && Key(m[k]) != Key(e)
    ensures Ascending(m[..k] + [e] + m[k..])
  {
    forall i | k <= i < |m| ensures Below(Key(e), Key(m[i])) {
      BelowTotal(Key(e), Key(m[k]));
      if i > k {
        BelowTransitive(Key(e), Key(m[k]), Key(m[i]));
      }
    }
  }

  /** A directory has one listing. */
  lemma {:induction false} ListingUnique(l: seq<Entry>, m: seq<Entry>)
    requires Ascending(l) && Ascending(m) && forall e :: e in l <==> e in m
    ensures l == m
  {
    if l == [] || m == [] {
      Empty(l);
      Empty(m);
    } else {
      Smallest(l, m);
      forall e ensures e in l[1..] <==> e in m[1..] {
        Rest(l, e);
        Rest(m, e);
      }
      ListingUnique(l[1..], m[1..]);
      assert l == [l[0]] + l[1..] && m == [m[0]] + m[1..];
    }
  }

  lemma Empty(l: seq<Entry>)
    ensures l == [] <==> forall e :: e !in l
  {
    if l != [] {
      assert l[0] in l;
    }
  }

  lemma Smallest(l: seq<Entry>, m: seq<Entry>)
    requires Ascending(l) && Ascending(m) && l != [] && m != [] && forall e :: e in l <==> e in m
    ensures l[0] == m[0]
  {
    assert l[0] in m && m[0] in l;
    var i :| 0 <= i < |m| && m[i] == l[0];
    var j :| 0 <= j < |l| && l[j] == m[0];
    BelowTotal(Key(l[0]), Key(m[0]));
  }

  lemma Rest(l: seq<Entry>, e: Entry)
    requires Ascending(l) && l != []
    ensures e in l[1..] <==> e in l && e != l[0]
  {
    assert l == [l[0]] + l[1..];
    if e in l[1..] {
      var i :| 0 < i < |l| && l[i] == e;
      BelowTotal(Key(l[0]), Key(e));
    }
  }
}
