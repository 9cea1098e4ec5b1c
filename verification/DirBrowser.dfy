/** The directory browser: eight rows that slide over the sorted listing of a directory, each scan reading the
    unsorted directory once. */
module DirBrowser {
  import opened Basics
  import opened DirOrder
  import opened SortTable

  // ---------------------------------------------------------------- positions a scan looks for

  /** Sort keys, not below `bound`, of the positions met among the first `n` slots. */
  function Wanted(ranks: seq<int>, n: nat, up: bool, bound: int): set<int>
    requires n <= |ranks|
  {
    set x | x in Met(ranks, n) && Pos(up, x) >= bound :: Pos(up, x)
  }

  lemma WantedNext(d: seq<Entry>, f: Filter, l: seq<Entry>, n: nat, up: bool, bound: int)
    requires Proper(d, f) && IsListing(d, f, l) && n < |d|
    ensures var r := Ranks(d, l);
      && Qualifies(d[n], f) == (r[n] >= 0)
      && (r[n] >= 0 ==> r[n] < |l| && l[r[n]] == d[n] && Pos(up, r[n]) !in Wanted(r, n, up, bound))
      && Wanted(r, n + 1, up, bound) ==
         if r[n] >= 0 && Pos(up, r[n]) >= bound then Wanted(r, n, up, bound) + {Pos(up, r[n])}
         else Wanted(r, n, up, bound)
  {
    hide Proper(), IsListing(), Qualifies();
    RankedQualify(d, f, l);
    MetOnce(d, f, l);
    MetNext(Ranks(d, l), n);
  }

  /** In the end, every position on the wanted side has been met. */
  lemma WantedAll(d: seq<Entry>, f: Filter, l: seq<Entry>, up: bool, bound: int)
    requires IsListing(d, f, l)
    ensures up && bound >= 0 ==> Wanted(Ranks(d, l), |d|, up, bound) == Span(bound, |l|)
    ensures !up && -|l| < bound <= 1 ==> Wanted(Ranks(d, l), |d|, up, bound) == Span(bound, 1)
  {
    hide IsListing();
    MetAll(d, f, l);
    var s := Wanted(Ranks(d, l), |d|, up, bound);
    if !up && -|l| < bound <= 1 {
      forall x | x in Span(bound, 1) ensures x in s {
        assert -x in Met(Ranks(d, l), |d|);
        assert Pos(up, -x) == x;
      }
    }
    if up && bound >= 0 {
      forall x | x in Span(bound, |l|) ensures x in s {
        assert x in Met(Ranks(d, l), |d|);
        assert Pos(up, x) == x;
      }
    }
  }

  lemma WantedNone(ranks: seq<int>, up: bool, bound: int)
    ensures Wanted(ranks, 0, up, bound) == {}
  {
  }

  lemma WantedAbove(ranks: seq<int>, n: nat, bound: int)
    requires n <= |ranks|
    ensures forall x :: x in Wanted(ranks, n, true, bound) ==> x >= bound
  {
  }

  lemma LowestFacts(w: seq<int>, s: set<int>)
    requires Lowest(w, s)
    ensures Rising(w) && |w| <= ROWS && forall x :: x in w ==> x in s
  {
  }

  lemma NoRows(entries: seq<Entry>, table: seq<nat>, l: seq<Entry>, up: bool)
    requires |entries| == |table| == ROWS
    ensures Shows(entries, table, l, [], up) && Dense(table, 0)
  {
  }

  // ---------------------------------------------------------------- where each scan leads

  /** First row shown and selected row. */
  datatype Place = Place(top: nat, selected: nat)
  {
    /** Position of the selection in the listing. */
    function Index(): nat {
      top + selected
    }
  }

  datatype Mode = Init | Next | Prev | NextPage | PrevPage

  /** Rows shown of a listing of `size` entries. */
  function Rows(size: nat, top: nat): nat {
    if top >= size then 0 else Least(ROWS, size - top)
  }

  /** Where a scan leads in a listing of `size` entries: the selection moves first, then the window. */
  function Move(p: Place, mode: Mode, size: nat): Place {
    var n := Rows(size, p.top);
    match mode
    case Init => Place(0, 0)
    case Next =>
      if n == 0 then p
      else if p.selected + 1 < n then Place(p.top, p.selected + 1)
      else if p.top + ROWS < size then Place(p.top + 1, p.selected) else p
    case Prev =>
      if n == 0 then p
      else if p.selected > 0 then Place(p.top, p.selected - 1)
      else if p.top > 0 then Place(p.top - 1, p.selected) else p
    case NextPage =>
      if n == 0 then p
      else if p.selected + 1 < n then Place(p.top, n - 1)
      else if p.top + ROWS < size then Place(p.top + Least(ROWS, size - p.top - ROWS), p.selected) else p
    case PrevPage =>
      if n == 0 then p
      else if p.selected > 0 then Place(p.top, 0)
      else Place(p.top - Least(ROWS, p.top), p.selected)
  }

  /** What the menu does: scan the directory it is in, enter another one, or return to one at the entry it was left
      through: by its parent entry, or by the key for going back, which does not start over when it does not find that
      entry. */
  datatype Step =
    | Scan(mode: Mode)
    | Enter(directory: seq<Entry>)
    | Return(directory: seq<Entry>, cluster: nat)
    | Back(directory: seq<Entry>, cluster: nat)

  /** Where a return leads: to the last slot that starts at the cluster, or to the beginning if there is none. */
  ghost function Landing(d: seq<Entry>, f: Filter, l: seq<Entry>, cluster: nat): Place {
    if exists j :: LastMatch(d, f, cluster, j) then
      var j :| LastMatch(d, f, cluster, j);
      Place(if d[j] in l then Find(l, d[j]) else 0, 0)
    else Place(0, 0)
  }

  /** The directory the menu is in, the one its rows show, and where in the listing of that. */
  datatype View = View(directory: seq<Entry>, shown: seq<Entry>, place: Place)

  /** Going back finds the entry. */
  ghost predicate Finds(l: seq<Entry>, d: seq<Entry>, f: Filter, cluster: nat) {
    l != [] && exists j :: LastMatch(d, f, cluster, j)
  }

  predicate AllProper(steps: seq<Step>, f: Filter) {
    forall i :: 0 <= i < |steps| && !steps[i].Scan? ==> Proper(steps[i].directory, f)
  }

  /** What one step leads to. A return from a directory that shows nothing starts at the beginning; going back without
      finding the entry leaves the rows at the beginning of the directory left. */
  ghost function After(v: View, step: Step, f: Filter): (w: View)
    requires Proper(v.directory, f) && Proper(v.shown, f) && (!step.Scan? ==> Proper(step.directory, f))
    ensures Proper(w.directory, f) && Proper(w.shown, f)
  {
    match step
    case Scan(mode) =>
      if mode.Init? then View(v.directory, v.directory, Place(0, 0))
      else v.(place := Move(v.place, mode, |Listing(v.shown, f)|))
    case Enter(d) => View(d, d, Place(0, 0))
    case Return(d, cluster) =>
      View(d, d, if Listing(v.shown, f) == [] then Place(0, 0) else Landing(d, f, Listing(d, f), cluster))
    case Back(d, cluster) =>
      if Finds(Listing(v.directory, f), d, f, cluster) then View(d, d, Landing(d, f, Listing(d, f), cluster))
      else View(d, v.directory, Place(0, 0))
  }

  /** What a run leads to. */
  ghost function Session(v: View, steps: seq<Step>, f: Filter): (w: View)
    requires Proper(v.directory, f) && Proper(v.shown, f) && AllProper(steps, f)
    ensures Proper(w.directory, f) && Proper(w.shown, f)
  {
    if steps == [] then v else After(Session(v, steps[..|steps| - 1], f), steps[|steps| - 1], f)
  }

  /** The rows are only scrolled while they show the directory the menu is in. */
  ghost predicate Scrolls(v: View, step: Step) {
    step.Scan? && !step.mode.Init? ==> v.shown == v.directory
  }

  ghost predicate Orderly(v: View, steps: seq<Step>, f: Filter)
    requires Proper(v.directory, f) && Proper(v.shown, f) && AllProper(steps, f)
  {
    forall i :: 0 <= i < |steps| ==> Scrolls(Session(v, steps[..i], f), steps[i])
  }

  /** The rows are those of another directory exactly after going back without finding the entry, until the next step
      that is no scroll. */
  lemma Stale(v: View, step: Step, f: Filter)
    requires Proper(v.directory, f) && Proper(v.shown, f) && (!step.Scan? ==> Proper(step.directory, f))
    requires v.shown == v.directory && (step.Back? ==> step.directory != v.directory)
    ensures var w := After(v, step, f);
      w.shown != w.directory <==> step.Back? && !Finds(Listing(v.directory, f), step.directory, f, step.cluster)
    ensures step.Back? && !Finds(Listing(v.directory, f), step.directory, f, step.cluster) ==>
              After(v, step, f) == View(step.directory, v.directory, Place(0, 0))
  {
  }

  lemma LandsOn(d: seq<Entry>, f: Filter, l: seq<Entry>, cluster: nat, j: int, top: nat)
    requires IsListing(d, f, l) && LastMatch(d, f, cluster, j) && top < |l| && l[top] == d[j]
    ensures Landing(d, f, l, cluster) == Place(top, 0)
  {
    assert l[top] in l;
    forall i | LastMatch(d, f, cluster, i) ensures i == j {
      OneLast(d, f, cluster, i, j);
    }
    PositionOrder(l, top, Find(l, d[j]));
  }

  lemma OneLast(d: seq<Entry>, f: Filter, cluster: nat, i: int, j: int)
    requires LastMatch(d, f, cluster, i) && LastMatch(d, f, cluster, j)
    ensures i == j
  {
  }

  predicate Within(p: Place, size: nat) {
    if size == 0 then p == Place(0, 0) else p.top < size && p.selected < Rows(size, p.top)
  }

  lemma MoveWithin(p: Place, mode: Mode, size: nat)
    requires Within(p, size)
    ensures Within(Move(p, mode, size), size)
  {
  }

  lemma InitMove(p: Place, size: nat)
    ensures Move(p, Init, size) == Place(0, 0)
  {
  }

  lemma LandingWithin(d: seq<Entry>, f: Filter, l: seq<Entry>, cluster: nat)
    ensures Within(Landing(d, f, l, cluster), |l|)
  {
  }

  /** The place a run leads to is always one of the listing its rows show. */
  lemma {:induction false} SessionWithin(v: View, steps: seq<Step>, f: Filter)
    requires Proper(v.directory, f) && Proper(v.shown, f) && AllProper(steps, f)
    requires Within(v.place, |Listing(v.shown, f)|)
    ensures var w := Session(v, steps, f); Within(w.place, |Listing(w.shown, f)|)
  {
    hide Move, Landing, Listing, Proper, Finds;
    if steps != [] {
      var n := |steps| - 1;
      SessionWithin(v, steps[..n], f);
      var w := Session(v, steps[..n], f);
      match steps[n] {
        case Scan(mode) =>
          MoveWithin(w.place, mode, |Listing(w.shown, f)|);
        case Enter(d) =>
          assert Within(Place(0, 0), |Listing(d, f)|);
        case Return(d, cluster) =>
          LandingWithin(d, f, Listing(d, f), cluster);
        case Back(d, cluster) =>
          LandingWithin(d, f, Listing(d, f), cluster);
      }
    }
  }

  /** The selection walks the listing one by one, and stops at its ends. */
  lemma OneStep(p: Place, size: nat)
    requires Within(p, size) && size > 0
    ensures Move(p, Next, size).Index() == Least(p.Index() + 1, size - 1)
    ensures Move(p, Prev, size).Index() == if p.Index() == 0 then 0 else p.Index() - 1
    ensures Move(p, Next, size).top - p.top == if p.selected + 1 == 8 && p.top + 8 < size then 1 else 0
    ensures p.top - Move(p, Prev, size).top == if p.selected == 0 && p.top > 0 then 1 else 0
  {
  }

  /** A page down selects the last row, or moves on by what is left of a page, never skipping an entry that was not
      shown, until the last entry is selected. */
  lemma PageDown(p: Place, size: nat)
    requires Within(p, size) && size > 0
    ensures p.Index() <= Move(p, NextPage, size).Index() <= Least(p.Index() + ROWS, size - 1)
    ensures p.Index() < size - 1 ==> p.Index() < Move(p, NextPage, size).Index()
    ensures Move(p, NextPage, size).top <= p.top + Rows(size, p.top)
    ensures p.Index() + 1 < Least(p.top + 8, size) ==>
              Move(p, NextPage, size) == Place(p.top, Least(p.top + 8, size) - 1 - p.top)
    ensures p.Index() + 1 == p.top + 8 ==> Move(p, NextPage, size) == Place(Least(p.top + 8, size - 8), p.selected)
    ensures p.Index() + 1 == size ==> Move(p, NextPage, size) == p
  {
  }

  lemma PageUp(p: Place, size: nat)
    requires Within(p, size)
    ensures Move(p, PrevPage, size).Index() <= p.Index() <= Move(p, PrevPage, size).Index() + ROWS
    ensures p.Index() > 0 ==> Move(p, PrevPage, size).Index() < p.Index()
    ensures p.top <= Move(p, PrevPage, size).top + Rows(size, Move(p, PrevPage, size).top)
    ensures p.selected > 0 ==> Move(p, PrevPage, size) == Place(p.top, 0)
    ensures p.selected == 0 ==> Move(p, PrevPage, size) == Place(if p.top < 8 then 0 else p.top - 8, 0)
  {
  }

  /** A step down and a step up end on the entry they started from. */
  lemma NextPrev(p: Place, size: nat)
    requires Within(p, size) && p.Index() + 1 < size
    ensures Move(Move(p, Next, size), Prev, size).Index() == p.Index()
  {
  }

  class Browser {
    const dirEntry: array<Entry>
    const sortTable: array<nat>
    const tDirEntry: array<Entry>
    const tSortTable: array<nat>
    var nDirEntries: nat
    var iSelectedEntry: nat
    ghost var top: nat

    ghost predicate Valid()
      reads this, sortTable
    {
      && dirEntry.Length == sortTable.Length == tDirEntry.Length == tSortTable.Length == ROWS
      && dirEntry != tDirEntry && sortTable != tSortTable
      && Slots(sortTable[..], ROWS) && nDirEntries <= ROWS
    }

    /** The rows show the listing from `top` on, as far as it goes or `n` rows, with one of them selected. */
    ghost predicate Displays(l: seq<Entry>, n: nat)
      reads this, sortTable, dirEntry
    {
      && Valid() && nDirEntries == n && Shows(dirEntry[..], sortTable[..], l, Run(top, n), true)
      && Within(Place(top, iSelectedEntry), |l|) && top + n <= |l|
    }

    ghost predicate Full(l: seq<Entry>)
      reads this, sortTable, dirEntry
    {
      Displays(l, Rows(|l|, top))
    }

    /** The entries from `top` on, eight of them or to the end of the listing, in their rows. */
    ghost predicate OnDisplay(l: seq<Entry>)
      reads this, sortTable, dirEntry
    {
      && top <= |l| && nDirEntries == Least(8, |l| - top) && nDirEntries <= sortTable.Length
      && (forall i :: 0 <= i < nDirEntries ==>
            sortTable[i] < dirEntry.Length && dirEntry[sortTable[i]] == l[top + i])
      && (|l| > 0 ==> iSelectedEntry < nDirEntries)
    }

    lemma FullOnDisplay(l: seq<Entry>)
      requires Full(l)
      ensures OnDisplay(l)
    {
      forall i | 0 <= i < nDirEntries ensures Run(top, nDirEntries)[i] == top + i {
      }
    }

    constructor ()
      ensures Valid() && nDirEntries == 0
    {
      var blank := Entry([], 0, 0, []);
      dirEntry := new Entry[ROWS](_ => blank);
      sortTable := new nat[ROWS](i => i);
      tDirEntry := new Entry[ROWS](_ => blank);
      tSortTable := new nat[ROWS](_ => 0);
      nDirEntries, iSelectedEntry, top := 0, 0, 0;
    }

    /** SCAN_INIT. */
    method ScanInit(d: seq<Entry>, f: Filter, ghost l: seq<Entry>)
      requires Valid() && Proper(d, f) && IsListing(d, f, l)
      modifies this`nDirEntries, this`iSelectedEntry, this`top, dirEntry, sortTable
      ensures Full(l) && top == 0 && iSelectedEntry == 0
    {
      hide Proper(), IsListing(), Qualifies(), Shows(), Slots(), Dense(), Lowest(), Admit(), Wanted();
      nDirEntries, iSelectedEntry := 0, 0;
      ResetTable();
      ghost var w: seq<int> := [];
      ghost var r := Ranks(d, l);
      ListingSorted(d, f, l);
      WantedNone(r, true, 0);
      LowestNone();
      NoRows(dirEntry[..], sortTable[..], l, true);
      for j := 0 to |d|
        invariant nDirEntries == |w| <= ROWS && iSelectedEntry == 0 && Lowest(w, Wanted(r, j, true, 0))
        invariant Shows(dirEntry[..], sortTable[..], l, w, true) && Dense(sortTable[..], nDirEntries)
        invariant Identity(sortTable[..], nDirEntries)
      {
        WantedNext(d, f, l, j, true, 0);
        if Qualifies(d[j], f) {
          LowestFacts(w, Wanted(r, j, true, 0));
          LowestNext(w, Wanted(r, j, true, 0), r[j]);
          nDirEntries := Take(dirEntry, sortTable, nDirEntries, d[j], true, false, l, w, r[j]);
          w := Admit(w, r[j]);
          LowestFacts(w, Wanted(r, j + 1, true, 0));
        }
      }
      WantedAll(d, f, l, true, 0);
      LowestOfSpan(w, 0, |l|);
      AllSlots(dirEntry[..], sortTable[..], l, w, true);
      top := 0;
    }

    /** SCAN_INIT_FIRST: the last entry in the directory that starts at `cluster` becomes the only row. */
    method ScanInitFirst(d: seq<Entry>, f: Filter, cluster: nat, ghost l: seq<Entry>) returns (rc: bool)
      requires Valid() && Proper(d, f) && IsListing(d, f, l)
      modifies this`nDirEntries, this`iSelectedEntry, this`top, dirEntry, sortTable
      ensures Valid()
      ensures rc <==> old(nDirEntries) > 0 && exists j :: LastMatch(d, f, cluster, j)
      ensures rc ==> Displays(l, 1) && iSelectedEntry == 0 && Identity(sortTable[..], 0)
      ensures rc ==> top < |l| && exists j :: LastMatch(d, f, cluster, j) && l[top] == d[j]
      ensures !rc ==> nDirEntries == old(nDirEntries) && iSelectedEntry == old(iSelectedEntry) && top == old(top)
      ensures !rc ==> dirEntry[..] == old(dirEntry[..]) && sortTable[..] == old(sortTable[..])
    {
      hide Proper(), IsListing(), Qualifies(), Shows(), Identity();
      rc := false;
      if nDirEntries == 0 {
        return;
      }
      ghost var last := -1;
      for j := 0 to |d|
        invariant Valid() && nDirEntries > 0 && rc == (last >= 0) && last < j
        invariant forall i :: last < i < j ==> !(Qualifies(d[i], f) && d[i].cluster == cluster)
        invariant rc ==> Qualifies(d[last], f) && d[last].cluster == cluster
        invariant rc ==> Displays(l, 1) && iSelectedEntry == 0 && Identity(sortTable[..], 0) && l[top] == d[last]
        invariant !rc ==> nDirEntries == old(nDirEntries) && iSelectedEntry == old(iSelectedEntry) && top == old(top)
        invariant !rc ==> dirEntry[..] == old(dirEntry[..]) && sortTable[..] == old(sortTable[..])
      {
        if Qualifies(d[j], f) && d[j].cluster == cluster {
          ShowOnly(d, f, j, l);
          rc, last := true, j;
        }
      }
      assert rc ==> LastMatch(d, f, cluster, last);
    }

    /** The entry in slot `j` of the directory becomes the only row. */
    method ShowOnly(d: seq<Entry>, f: Filter, j: nat, ghost l: seq<Entry>)
      requires Valid() && IsListing(d, f, l) && j < |d| && Qualifies(d[j], f)
      modifies this`nDirEntries, this`iSelectedEntry, this`top, dirEntry, sortTable
      ensures Displays(l, 1) && iSelectedEntry == 0 && Identity(sortTable[..], 0) && l[top] == d[j]
    {
      hide Qualifies(), IsListing();
      RankedQualify(d, f, l);
      ResetTable();
      nDirEntries, iSelectedEntry := 1, 0;
      dirEntry[0] := d[j];
      top := Ranks(d, l)[j];
      assert Run(top, 1)[0] == top;
    }

    /** SCAN_INIT_NEXT: fills the rows behind the one SCAN_INIT_FIRST found. */
    method ScanInitNext(d: seq<Entry>, f: Filter, ghost l: seq<Entry>)
      requires Proper(d, f) && IsListing(d, f, l) && Displays(l, 1) && iSelectedEntry == 0 && Identity(sortTable[..], 0)
      modifies this`nDirEntries, dirEntry, sortTable
      ensures Full(l) && top == old(top) && iSelectedEntry == 0
    {
      hide Proper(), IsListing(), Qualifies(), Shows(), Slots(), Dense(), Lowest(), Admit(), Wanted(), Ranks(),
           Sorted(), Identity();
      ghost var w := Run(top, 1);
      ghost var r := Ranks(d, l);
      ListingSorted(d, f, l);
      WantedNone(r, true, top + 1);
      FirstOnly(sortTable[..], top);
      for j := 0 to |d|
        invariant 0 < nDirEntries == |w| <= ROWS && Lowest(w, {top} + Wanted(r, j, true, top + 1))
        invariant Shows(dirEntry[..], sortTable[..], l, w, true) && Dense(sortTable[..], nDirEntries)
        invariant Identity(sortTable[..], nDirEntries)
      {
        BehindStep(d, f, l, j, top, w);
        if Qualifies(d[j], f) {
          var rc := CompareRow(dirEntry, sortTable, 0, d[j], true, l, w, r[j]);
          if rc > 0 {
            nDirEntries := Take(dirEntry, sortTable, nDirEntries, d[j], true, false, l, w, r[j]);
            w := Admit(w, r[j]);
          }
        }
      }
      WantedAll(d, f, l, true, top + 1);
      assert {top} + Span(top + 1, |l|) == Span(top, |l|);
      LowestOfSpan(w, top, |l|);
      AllSlots(dirEntry[..], sortTable[..], l, w, true);
    }

    /** SCAN_NEXT. */
    method ScanNext(d: seq<Entry>, f: Filter, ghost l: seq<Entry>)
      requires Proper(d, f) && IsListing(d, f, l) && Full(l)
      modifies this`iSelectedEntry, this`top, dirEntry, sortTable
      ensures Full(l) && Place(top, iSelectedEntry) == Move(old(Place(top, iSelectedEntry)), Next, |l|)
      ensures old(iSelectedEntry) + 1 < old(nDirEntries) ==>
                iSelectedEntry == old(iSelectedEntry) + 1 && top == old(top)
      ensures old(iSelectedEntry) + 1 >= old(nDirEntries) ==>
                iSelectedEntry == old(iSelectedEntry)
                && top == old(top) + if old(nDirEntries) == 8 && old(top) + 8 < |l| then 1 else 0
    {
      hide Proper(), IsListing(), Qualifies(), Shows(), Slots(), Wanted(), Ranks();
      if nDirEntries == 0 {
        return;
      }
      if iSelectedEntry + 1 < nDirEntries {
        iSelectedEntry := iSelectedEntry + 1;
        return;
      }
      if nDirEntries < ROWS {
        return;
      }
      ghost var r := Ranks(d, l);
      ghost var y := 0;
      ListingSorted(d, f, l);
      WantedNone(r, true, top + ROWS);
      var nNewEntries := 0;
      for j := 0 to |d|
        invariant Valid() && nNewEntries <= 1 && top == old(top) && iSelectedEntry == old(iSelectedEntry)
        invariant nNewEntries == 0 ==>
                  Wanted(r, j, true, top + ROWS) == {} && Shows(dirEntry[..], sortTable[..], l, Run(top, ROWS), true)
        invariant nNewEntries == 1 ==> First(y, Wanted(r, j, true, top + ROWS))
        invariant nNewEntries == 1 ==> Shows(dirEntry[..], sortTable[..], l, Run(top + 1, ROWS - 1) + [y], true)
      {
        WantedNext(d, f, l, j, true, top + ROWS);
        if Qualifies(d[j], f) {
          if nNewEntries == 0 {
            var rc := CompareRow(dirEntry, sortTable, ROWS - 1, d[j], true, l, Run(top, ROWS), r[j]);
            if rc > 0 {
              nNewEntries, y := nNewEntries + 1, r[j];
              ScrollUp(d[j], l, Run(top, ROWS), y);
              assert Run(top, ROWS)[1..] == Run(top + 1, ROWS - 1);
            }
          } else {
            ghost var w := Run(top + 1, ROWS - 1) + [y];
            var rc := CompareRow(dirEntry, sortTable, ROWS - 1, d[j], true, l, w, r[j]);
            if rc < 0 {
              var rc' := CompareRow(dirEntry, sortTable, ROWS - 2, d[j], true, l, w, r[j]);
              if rc' > 0 {
                ReplaceRow(ROWS - 1, d[j], l, w, r[j]);
                y := r[j];
                assert w[ROWS - 1 := y] == Run(top + 1, ROWS - 1) + [y];
              }
            }
          }
        }
      }
      WantedAll(d, f, l, true, top + ROWS);
      if nNewEntries == 1 {
        FirstOfSpan(y, top + ROWS, |l|);
        assert Run(top + 1, ROWS - 1) + [y] == Run(top + 1, ROWS);
        top := top + 1;
      } else {
        EmptySpan(top + ROWS, |l|);
      }
    }

    /** Another entry in the slot of row `i`. */
    method ReplaceRow(i: nat, e: Entry, ghost l: seq<Entry>, ghost w: seq<int>, ghost x: int)
      requires Valid() && i < |w| && Shows(dirEntry[..], sortTable[..], l, w, true) && 0 <= x < |l| && l[x] == e
      modifies dirEntry
      ensures Shows(dirEntry[..], sortTable[..], l, w[i := x], true) && Valid()
    {
      ShowsStore(dirEntry[..], sortTable[..], l, w, true, i, x);
      ghost var was := dirEntry[..];
      dirEntry[sortTable[i]] := e;
      assert dirEntry[..] == was[sortTable[i] := e];
    }

    /** The slot of the first row goes to a new last row. */
    method ScrollUp(e: Entry, ghost l: seq<Entry>, ghost w: seq<int>, ghost x: int)
      requires Valid() && |w| == ROWS && Shows(dirEntry[..], sortTable[..], l, w, true) && 0 <= x < |l| && l[x] == e
      modifies dirEntry, sortTable
      ensures Shows(dirEntry[..], sortTable[..], l, w[1..] + [x], true) && Valid()
    {
      ReplaceRow(0, e, l, w, x);
      ghost var t := sortTable[..];
      var slot := sortTable[0];
      for i := 0 to ROWS - 1
        modifies sortTable
        invariant forall k :: 0 <= k < i ==> sortTable[k] == t[k + 1]
        invariant forall k :: i <= k < ROWS ==> sortTable[k] == t[k]
      {
        sortTable[i] := sortTable[i + 1];
      }
      sortTable[ROWS - 1] := slot;
      assert sortTable[..] == t[1..] + [t[0]];
      RotateUp(dirEntry[..], t, l, w[0 := x]);
      assert w[0 := x][1..] + [x] == w[1..] + [x];
    }

    /** SCAN_PREV. */
    method ScanPrev(d: seq<Entry>, f: Filter, ghost l: seq<Entry>)
      requires Proper(d, f) && IsListing(d, f, l) && Full(l)
      modifies this`iSelectedEntry, this`nDirEntries, this`top, dirEntry, sortTable
      ensures Full(l) && Place(top, iSelectedEntry) == Move(old(Place(top, iSelectedEntry)), Prev, |l|)
      ensures old(iSelectedEntry) > 0 ==> iSelectedEntry == old(iSelectedEntry) - 1 && top == old(top)
      ensures old(iSelectedEntry) == 0 ==> iSelectedEntry == 0 && top == if old(top) > 0 then old(top) - 1 else 0
    {
      if nDirEntries == 0 {
        return;
      }
      if iSelectedEntry > 0 {
        iSelectedEntry := iSelectedEntry - 1;
        return;
      }
      StepUp(d, f, l);
    }

    /** Puts the last entry before the first row, if there is one, in front. */
    method StepUp(d: seq<Entry>, f: Filter, ghost l: seq<Entry>)
      requires Proper(d, f) && IsListing(d, f, l) && Full(l) && nDirEntries > 0 && iSelectedEntry == 0
      modifies this`nDirEntries, this`top, dirEntry, sortTable
      ensures Full(l) && top == if old(top) > 0 then old(top) - 1 else 0
    {
      hide Proper(), IsListing(), Qualifies(), Shows(), Slots(), Wanted(), Ranks(), Sorted(), Run();
      ghost var r := Ranks(d, l);
      ghost var y := 0;
      ghost var m := Least(nDirEntries, ROWS - 1);
      ghost var b := 1 - top;
      ListingSorted(d, f, l);
      WantedNone(r, false, b);
      var nNewEntries := 0;
      for j := 0 to |d|
        invariant Valid() && nNewEntries <= 1 && top == old(top) && iSelectedEntry == 0
        invariant nNewEntries == 0 ==> nDirEntries == old(nDirEntries) && Wanted(r, j, false, b) == {}
        invariant nNewEntries == 0 ==> Shows(dirEntry[..], sortTable[..], l, Run(top, nDirEntries), true)
        invariant nNewEntries == 1 ==> nDirEntries == m + 1 && First(-y, Wanted(r, j, false, b))
        invariant nNewEntries == 1 ==> Shows(dirEntry[..], sortTable[..], l, [y] + Run(top, m), true)
      {
        WantedNext(d, f, l, j, false, b);
        if Qualifies(d[j], f) {
          if nNewEntries == 0 {
            var rc := CompareRow(dirEntry, sortTable, 0, d[j], true, l, Run(top, nDirEntries), r[j]);
            if rc < 0 {
              ghost var w := Run(top, nDirEntries);
              nNewEntries, y := nNewEntries + 1, r[j];
              if nDirEntries < ROWS {
                nDirEntries := nDirEntries + 1;
              }
              ScrollDown(d[j], l, w, y);
              assert w[..m] == Run(top, m);
            }
          } else {
            ghost var w := [y] + Run(top, m);
            var rc := CompareRow(dirEntry, sortTable, 0, d[j], true, l, w, r[j]);
            if rc > 0 {
              var rc' := CompareRow(dirEntry, sortTable, 1, d[j], true, l, w, r[j]);
              if rc' < 0 {
                ReplaceRow(0, d[j], l, w, r[j]);
                y := r[j];
                assert w[0 := y] == [y] + Run(top, m);
              }
            }
          }
        }
      }
      if top > 0 {
        WantedAll(d, f, l, false, b);
        assert b in Span(b, 1);
      }
      if nNewEntries == 1 {
        NoneBelowFirst(r, |d|, b, -y);
        FirstOfSpan(-y, b, 1);
        assert [y] + Run(top, m) == Run(top - 1, m + 1);
        top := top - 1;
      }
    }

    /** The slot of the last row of the table goes to a new first row. */
    method ScrollDown(e: Entry, ghost l: seq<Entry>, ghost w: seq<int>, ghost x: int)
      requires Valid() && Shows(dirEntry[..], sortTable[..], l, w, true) && 0 <= x < |l| && l[x] == e
      modifies dirEntry, sortTable
      ensures Shows(dirEntry[..], sortTable[..], l, [x] + w[..Least(|w|, ROWS - 1)], true) && Valid()
    {
      ghost var t, es := sortTable[..], dirEntry[..];
      var slot := sortTable[ROWS - 1];
      dirEntry[slot] := e;
      assert dirEntry[..] == es[slot := e];
      var i := ROWS - 1;
      while i > 0
        modifies sortTable
        invariant 0 <= i < ROWS
        invariant forall k :: 0 <= k <= i ==> sortTable[k] == t[k]
        invariant forall k :: i < k < ROWS ==> sortTable[k] == t[k - 1]
      {
        sortTable[i] := sortTable[i - 1];
        i := i - 1;
      }
      sortTable[0] := slot;
      assert sortTable[..] == [t[ROWS - 1]] + t[..ROWS - 1];
      RotateDown(es, t, l, w, e, x);
    }

    /** SCAN_NEXT_PAGE. */
    method ScanNextPage(d: seq<Entry>, f: Filter, ghost l: seq<Entry>)
      requires Proper(d, f) && IsListing(d, f, l) && Full(l)
      modifies this`iSelectedEntry, this`top, dirEntry, sortTable, tDirEntry, tSortTable
      ensures Full(l) && Place(top, iSelectedEntry) == Move(old(Place(top, iSelectedEntry)), NextPage, |l|)
      ensures nDirEntries == old(nDirEntries)
      ensures old(iSelectedEntry) + 1 < old(nDirEntries) ==> iSelectedEntry == nDirEntries - 1 && top == old(top)
      ensures old(iSelectedEntry) + 1 >= old(nDirEntries) ==>
                iSelectedEntry == old(iSelectedEntry)
                && top == if old(nDirEntries) == 8 then Least(old(top) + 8, |l| - 8) else old(top)
    {
      if nDirEntries == 0 {
        return;
      }
      if iSelectedEntry + 1 < nDirEntries {
        iSelectedEntry := nDirEntries - 1;
        return;
      }
      if nDirEntries < ROWS {
        return;
      }
      var nNewEntries := CollectBelow(d, f, l);
      if nNewEntries > 0 {
        PageDownRows(nNewEntries, l);
        top := top + nNewEntries;
      }
    }

    /** Collects the first eight entries behind the last row. */
    method CollectBelow(d: seq<Entry>, f: Filter, ghost l: seq<Entry>) returns (nNewEntries: nat)
      requires Proper(d, f) && IsListing(d, f, l) && Full(l) && nDirEntries == ROWS
      modifies tDirEntry, tSortTable
      ensures Full(l) && top + ROWS <= |l| && nNewEntries == Least(ROWS, |l| - top - ROWS)
      ensures Shows(tDirEntry[..], tSortTable[..], l, Run(top + ROWS, nNewEntries), true)
    {
      hide Proper(), IsListing(), Qualifies(), Shows(), Slots(), Wanted(), Ranks(), Sorted(), Lowest(), Dense(),
           Admit();
      ghost var r, w, b := Ranks(d, l), [], top + ROWS;
      ListingSorted(d, f, l);
      WantedNone(r, true, b);
      LowestNone();
      NoRows(tDirEntry[..], tSortTable[..], l, true);
      nNewEntries := 0;
      for j := 0 to |d|
        invariant Full(l) && nNewEntries == |w| <= ROWS && Lowest(w, Wanted(r, j, true, b))
        invariant Shows(tDirEntry[..], tSortTable[..], l, w, true) && Dense(tSortTable[..], nNewEntries)
      {
        WantedNext(d, f, l, j, true, b);
        LowestFacts(w, Wanted(r, j, true, b));
        if Qualifies(d[j], f) {
          var rc := CompareRow(dirEntry, sortTable, ROWS - 1, d[j], true, l, Run(top, ROWS), r[j]);
          if rc > 0 {
            LowestNext(w, Wanted(r, j, true, b), r[j]);
            nNewEntries := Take(tDirEntry, tSortTable, nNewEntries, d[j], true, true, l, w, r[j]);
            w := Admit(w, r[j]);
            LowestFacts(w, Wanted(r, j + 1, true, b));
          }
        }
      }
      WantedAll(d, f, l, true, b);
      LowestOfSpan(w, b, |l|);
    }

    /** Moves the rows up by `n` and appends the collected ones. */
    method PageDownRows(n: nat, ghost l: seq<Entry>)
      requires Valid() && 0 < n <= ROWS && top + ROWS + n <= |l|
      requires Shows(dirEntry[..], sortTable[..], l, Run(top, ROWS), true)
      requires Shows(tDirEntry[..], tSortTable[..], l, Run(top + ROWS, n), true)
      modifies dirEntry, sortTable
      ensures Valid() && Shows(dirEntry[..], sortTable[..], l, Run(top + n, ROWS), true)
    {
      hide Slots(), Shows(), RowsShow();
      var j := ROWS - n;
      ghost var t := sortTable[..];
      RollUp(n);
      RowsRolled(dirEntry[..], t, sortTable[..], l, top, ROWS, n, 0, j);
      for i := 0 to n
        modifies dirEntry
        invariant RowsShow(dirEntry[..], sortTable[..], l, top + n, 0, j + i)
      {
        Shown(tDirEntry[..], tSortTable[..], l, top + ROWS, n, i);
        CopyRow(i + j, i, l, top + n, 0, j + i);
      }
      RowsRun(dirEntry[..], sortTable[..], l, top + n, ROWS);
    }

    /** Moves the slots of the rows up by `n`; the slots of the first `n` rows end up behind them. */
    method RollUp(n: nat)
      requires sortTable.Length == ROWS && Slots(sortTable[..], ROWS) && 0 < n <= ROWS
      modifies sortTable
      ensures Slots(sortTable[..], ROWS) && forall i :: 0 <= i < ROWS - n ==> sortTable[i] == old(sortTable[i + n])
    {
      for i := 0 to ROWS - n
        invariant Slots(sortTable[..], ROWS)
        invariant forall k :: 0 <= k < i ==> sortTable[k] == old(sortTable[k + n])
        invariant forall k :: i + n <= k < ROWS ==> sortTable[k] == old(sortTable[k])
      {
        sortTable[i], sortTable[i + n] := sortTable[i + n], sortTable[i];
      }
    }

    /** Moves the slots of the rows down by `n`; the slots of the last `n` rows end up before them. */
    method RollDown(n: nat)
      requires sortTable.Length == ROWS && Slots(sortTable[..], ROWS) && 0 < n <= ROWS
      modifies sortTable
      ensures Slots(sortTable[..], ROWS) && forall i :: n <= i < ROWS ==> sortTable[i] == old(sortTable[i - n])
    {
      var i := ROWS - 1;
      while i > n - 1
        invariant n - 1 <= i < ROWS && Slots(sortTable[..], ROWS)
        invariant forall k :: i < k < ROWS ==> sortTable[k] == old(sortTable[k - n])
        invariant forall k :: 0 <= k <= i - n ==> sortTable[k] == old(sortTable[k])
      {
        sortTable[i], sortTable[i - n] := sortTable[i - n], sortTable[i];
        i := i - 1;
      }
    }

    /** Copies a collected entry into the slot of row `to`. */
    method CopyRow(to: nat, from: nat, ghost l: seq<Entry>, ghost base: int, ghost lo: int, ghost hi: int)
      requires Valid() && to < ROWS && from < ROWS && 0 <= lo <= hi <= ROWS && (to == hi || to == lo - 1)
      requires tSortTable[from] < ROWS && 0 <= base + to < |l| && tDirEntry[tSortTable[from]] == l[base + to]
      requires RowsShow(dirEntry[..], sortTable[..], l, base, lo, hi)
      modifies dirEntry
      ensures RowsShow(dirEntry[..], sortTable[..], l, base, Least(lo, to), if to == hi then hi + 1 else hi)
    {
      ghost var es := dirEntry[..];
      dirEntry[sortTable[to]] := tDirEntry[tSortTable[from]];
      assert dirEntry[..] == es[sortTable[to] := l[base + to]];
      RowStored(es, sortTable[..], l, base, lo, hi, to);
    }

    /** SCAN_PREV_PAGE. */
    method ScanPrevPage(d: seq<Entry>, f: Filter, ghost l: seq<Entry>)
      requires Proper(d, f) && IsListing(d, f, l) && Full(l)
      modifies this`iSelectedEntry, this`nDirEntries, this`top, dirEntry, sortTable, tDirEntry, tSortTable
      ensures Full(l) && Place(top, iSelectedEntry) == Move(old(Place(top, iSelectedEntry)), PrevPage, |l|)
      ensures iSelectedEntry == 0
      ensures top == if old(iSelectedEntry) > 0 then old(top) else if old(top) < 8 then 0 else old(top) - 8
    {
      if nDirEntries == 0 {
        return;
      }
      if iSelectedEntry > 0 {
        iSelectedEntry := 0;
        return;
      }
      var nNewEntries := CollectAbove(d, f, l);
      if nNewEntries > 0 {
        PageUpRows(nNewEntries, l);
        nDirEntries := nDirEntries + nNewEntries;
        if nDirEntries > ROWS {
          nDirEntries := ROWS;
        }
        top := top - nNewEntries;
      }
    }

    /** Collects the last eight entries before the first row, in reverse order. */
    method CollectAbove(d: seq<Entry>, f: Filter, ghost l: seq<Entry>) returns (nNewEntries: nat)
      requires Proper(d, f) && IsListing(d, f, l) && Full(l) && nDirEntries > 0
      modifies tDirEntry, tSortTable
      ensures Full(l) && nNewEntries == Least(ROWS, top)
      ensures Shows(tDirEntry[..], tSortTable[..], l, Run(1 - top, nNewEntries), false)
    {
      hide Proper(), IsListing(), Qualifies(), Shows(), Slots(), Wanted(), Ranks(), Sorted(), Lowest(), Dense(),
           Admit();
      ghost var r, w, b := Ranks(d, l), [], 1 - top;
      ListingSorted(d, f, l);
      WantedNone(r, false, b);
      LowestNone();
      NoRows(tDirEntry[..], tSortTable[..], l, false);
      nNewEntries := 0;
      for j := 0 to |d|
        invariant Full(l) && nNewEntries == |w| <= ROWS && Lowest(w, Wanted(r, j, false, b))
        invariant Shows(tDirEntry[..], tSortTable[..], l, w, false) && Dense(tSortTable[..], nNewEntries)
      {
        WantedNext(d, f, l, j, false, b);
        LowestFacts(w, Wanted(r, j, false, b));
        if Qualifies(d[j], f) {
          var rc := CompareRow(dirEntry, sortTable, 0, d[j], true, l, Run(top, nDirEntries), r[j]);
          if rc < 0 {
            LowestNext(w, Wanted(r, j, false, b), -r[j]);
            nNewEntries := Take(tDirEntry, tSortTable, nNewEntries, d[j], false, true, l, w, -r[j]);
            w := Admit(w, -r[j]);
            LowestFacts(w, Wanted(r, j + 1, false, b));
          }
        }
      }
      WantedAll(d, f, l, false, b);
      LowestOfSpan(w, b, 1);
    }

    /** Moves the rows down by `n` and puts the collected ones, reversed, before them. */
    method PageUpRows(n: nat, ghost l: seq<Entry>)
      requires Valid() && 0 < n <= ROWS && n <= top && nDirEntries > 0
      requires Shows(dirEntry[..], sortTable[..], l, Run(top, nDirEntries), true)
      requires Shows(tDirEntry[..], tSortTable[..], l, Run(1 - top, n), false)
      modifies dirEntry, sortTable
      ensures Valid() && Shows(dirEntry[..], sortTable[..], l, Run(top - n, Least(ROWS, nDirEntries + n)), true)
    {
      hide Slots(), Shows(), RowsShow();
      ghost var t := sortTable[..];
      ghost var m := Least(ROWS, nDirEntries + n);
      var j := n - 1;
      RollDown(n);
      RowsRolled(dirEntry[..], t, sortTable[..], l, top, nDirEntries, -(n as int), n, m);
      for i := 0 to n
        modifies dirEntry
        invariant RowsShow(dirEntry[..], sortTable[..], l, top - n, n - i, m)
      {
        ShownUp(tDirEntry[..], tSortTable[..], l, top, n, i);
        CopyRow(j - i, i, l, top - n, n - i, m);
      }
      RowsRun(dirEntry[..], sortTable[..], l, top - n, m);
    }

    method ScanDirectory(mode: Mode, d: seq<Entry>, f: Filter, ghost l: seq<Entry>)
      requires Valid() && Proper(d, f) && IsListing(d, f, l) && (!mode.Init? ==> Full(l))
      modifies this`iSelectedEntry, this`nDirEntries, this`top, dirEntry, sortTable, tDirEntry, tSortTable
      ensures Full(l) && Place(top, iSelectedEntry) == Move(old(Place(top, iSelectedEntry)), mode, |l|)
      ensures OnDisplay(l)
    {
      match mode {
        case Init => ScanInit(d, f, l);
        case Next => ScanNext(d, f, l);
        case Prev => ScanPrev(d, f, l);
        case NextPage => ScanNextPage(d, f, l);
        case PrevPage => ScanPrevPage(d, f, l);
      }
      FullOnDisplay(l);
    }

    /** Back to a directory, the way the menu goes: the entry the browser came from, and its successors; or the
        beginning when that entry is not shown. The rows may still be those of another directory. */
    method ReturnTo(cluster: nat, d: seq<Entry>, f: Filter, ghost l: seq<Entry>)
      requires Valid() && Proper(d, f) && IsListing(d, f, l)
      modifies this`iSelectedEntry, this`nDirEntries, this`top, dirEntry, sortTable
      ensures Full(l)
      ensures Place(top, iSelectedEntry) == if old(nDirEntries) > 0 then Landing(d, f, l, cluster) else Place(0, 0)
    {
      hide Proper(), IsListing(), Qualifies();
      var found := ScanInitFirst(d, f, cluster, l);
      if found {
        ghost var j :| LastMatch(d, f, cluster, j) && 0 <= j < |d| && l[top] == d[j];
        LandsOn(d, f, l, cluster, j, top);
        ScanInitNext(d, f, l);
      } else {
        ScanInit(d, f, l);
      }
    }

    /** Back to the directory above by the key: the directory left is shown from its beginning, where its parent entry
        is, and then the entry it was left through and its successors. Nothing more happens if that is not found. */
    method GoBack(left: seq<Entry>, cluster: nat, d: seq<Entry>, f: Filter, ghost k: seq<Entry>, ghost l: seq<Entry>)
        returns (found: bool)
      requires Valid() && Proper(left, f) && IsListing(left, f, k) && Proper(d, f) && IsListing(d, f, l)
      modifies this`iSelectedEntry, this`nDirEntries, this`top, dirEntry, sortTable
      ensures found <==> Finds(k, d, f, cluster)
      ensures found <==> |k| > 0 && exists j :: LastMatch(d, f, cluster, j)
      ensures found ==> Full(l) && Place(top, iSelectedEntry) == Landing(d, f, l, cluster)
      ensures !found ==> Full(k) && Place(top, iSelectedEntry) == Place(0, 0)
    {
      hide Proper(), IsListing(), Qualifies(), Shows();
      ScanInit(left, f, k);
      found := ScanInitFirst(d, f, cluster, l);
      if found {
        ghost var j :| LastMatch(d, f, cluster, j) && 0 <= j < |d| && l[top] == d[j];
        LandsOn(d, f, l, cluster, j, top);
        ScanInitNext(d, f, l);
      }
    }

    /** Any run through any directories: the rows are always the slice of the sorted listing that the steps lead to. */
    method Browse(d: seq<Entry>, steps: seq<Step>, f: Filter)
      requires Valid() && Proper(d, f) && AllProper(steps, f) && Orderly(View(d, d, Place(0, 0)), steps, f)
      modifies this`iSelectedEntry, this`nDirEntries, this`top, dirEntry, sortTable, tDirEntry, tSortTable
      ensures var v := Session(View(d, d, Place(0, 0)), steps, f);
              Full(Listing(v.shown, f)) && Place(top, iSelectedEntry) == v.place && OnDisplay(Listing(v.shown, f))
    {
      hide Proper(), IsListing(), Full(), Move(), Landing(), Listing(), After();
      ghost var start := View(d, d, Place(0, 0));
      var current := d;
      ghost var shown := d;
      ScanInit(current, f, Listing(current, f));
      assert steps[..0] == [];
      for i := 0 to |steps|
        invariant AllProper(steps[..i], f) && Proper(current, f) && Proper(shown, f)
        invariant Full(Listing(shown, f))
        invariant Session(start, steps[..i], f) == View(current, shown, Place(top, iSelectedEntry))
      {
        assert steps[..i + 1][..i] == steps[..i];
        current, shown := Perform(steps[i], current, shown, f);
      }
      assert steps[..|steps|] == steps;
      FullOnDisplay(Listing(shown, f));
    }

    /** One step of a run. */
    method Perform(step: Step, current: seq<Entry>, ghost shown: seq<Entry>, f: Filter)
        returns (next: seq<Entry>, ghost now: seq<Entry>)
      requires Proper(current, f) && Proper(shown, f) && Full(Listing(shown, f))
      requires (!step.Scan? ==> Proper(step.directory, f)) && Scrolls(View(current, shown, Place(0, 0)), step)
      modifies this`iSelectedEntry, this`nDirEntries, this`top, dirEntry, sortTable, tDirEntry, tSortTable
      ensures Proper(next, f) && Proper(now, f) && Full(Listing(now, f))
      ensures View(next, now, Place(top, iSelectedEntry))
           == After(View(current, shown, old(Place(top, iSelectedEntry))), step, f)
    {
      hide Proper(), IsListing(), Move(), Landing(), Listing(), Shows(), Slots(), Finds();
      next, now := current, shown;
      match step {
        case Scan(mode) =>
          now := current;
          InitMove(Place(top, iSelectedEntry), |Listing(current, f)|);
          ScanDirectory(mode, current, f, Listing(current, f));
        case Enter(d) =>
          next, now := d, d;
          ScanInit(next, f, Listing(next, f));
        case Return(d, cluster) =>
          next, now := d, d;
          ReturnTo(cluster, next, f, Listing(next, f));
        case Back(d, cluster) =>
          next := d;
          var found := GoBack(current, cluster, d, f, Listing(current, f), Listing(d, f));
          now := if found then d else current;
      }
    }

    /** `sort_table[i] = i`. */
    method ResetTable()
      requires sortTable.Length == ROWS
      modifies sortTable
      ensures Identity(sortTable[..], 0)
    {
      for i := 0 to ROWS
        invariant forall k :: 0 <= k < i ==> sortTable[k] == k
      {
        sortTable[i] := i;
      }
    }
  }

  lemma RotateUp(entries: seq<Entry>, table: seq<nat>, l: seq<Entry>, w: seq<int>)
    requires |w| == ROWS && Shows(entries, table, l, w, true)
    ensures Shows(entries, table[1..] + [table[0]], l, w[1..] + [w[0]], true)
  {
  }

  lemma RotateDown(entries: seq<Entry>, table: seq<nat>, l: seq<Entry>, w: seq<int>, e: Entry, x: int)
    requires Shows(entries, table, l, w, true) && Slots(table, ROWS) && 0 <= x < |l| && l[x] == e
    ensures var t := [table[ROWS - 1]] + table[..ROWS - 1];
      Slots(t, ROWS) && Shows(entries[table[ROWS - 1] := e], t, l, [x] + w[..Least(|w|, ROWS - 1)], true)
  {
    var t, v := [table[ROWS - 1]] + table[..ROWS - 1], [x] + w[..Least(|w|, ROWS - 1)];
    assert forall i :: 0 < i < ROWS ==> t[i] == table[i - 1];
    assert forall i :: 0 < i < |v| ==> v[i] == w[i - 1];
  }

  /** A position wanted upwards lies above none of the first row. */
  lemma NoneBelowFirst(ranks: seq<int>, n: nat, bound: int, y: int)
    requires n <= |ranks| && y in Wanted(ranks, n, false, bound)
    ensures bound <= y <= 0
  {
  }

  /** Row `i` shows the listing, row 0 standing for position `base`. */
  predicate RowShows(entries: seq<Entry>, table: seq<nat>, l: seq<Entry>, base: int, i: int) {
    0 <= i < |table| && table[i] < |entries| && 0 <= base + i < |l| && entries[table[i]] == l[base + i]
  }

  /** Rows `lo` up to `hi` do. */
  predicate RowsShow(entries: seq<Entry>, table: seq<nat>, l: seq<Entry>, base: int, lo: int, hi: int) {
    && |entries| == ROWS && Slots(table, ROWS) && 0 <= lo && hi <= ROWS
    && forall i :: lo <= i < hi ==> RowShows(entries, table, l, base, i)
  }

  /** Rows `lo` up to `hi` of a table rolled by `n` show what rows `lo + n` up to `hi + n` did. */
  lemma RowsRolled(entries: seq<Entry>, t: seq<nat>, table: seq<nat>, l: seq<Entry>, base: int, count: nat, n: int,
      lo: int, hi: int)
    requires count <= ROWS && Shows(entries, t, l, Run(base, count), true) && |t| == ROWS && Slots(table, ROWS)
    requires 0 <= lo && hi <= ROWS && 0 <= lo + n && hi + n <= count
    requires forall i :: lo <= i < hi ==> table[i] == t[i + n]
    ensures RowsShow(entries, table, l, base + n, lo, hi)
  {
    hide Shows(), Run();
    var b := base + n;
    SizeShown(entries, t, l, base, count);
    forall i | lo <= i < hi ensures RowShows(entries, table, l, b, i) {
      assert table[i] == t[i + n];
      Shown(entries, t, l, base, count, i + n);
    }
  }

  lemma RowStored(entries: seq<Entry>, table: seq<nat>, l: seq<Entry>, base: int, lo: int, hi: int, to: nat)
    requires RowsShow(entries, table, l, base, lo, hi) && lo <= hi && to < ROWS && (to == hi || to == lo - 1)
    requires 0 <= base + to < |l|
    ensures RowsShow(entries[table[to] := l[base + to]], table, l, base, Least(lo, to), if to == hi then hi + 1 else hi)
  {
    var es := entries[table[to] := l[base + to]];
    forall i | Least(lo, to) <= i < (if to == hi then hi + 1 else hi) ensures RowShows(es, table, l, base, i) {
      if i != to {
        assert RowShows(entries, table, l, base, i) && table[i] != table[to];
      }
    }
  }

  lemma SizeShown(entries: seq<Entry>, table: seq<nat>, l: seq<Entry>, base: int, n: nat)
    requires Shows(entries, table, l, Run(base, n), true)
    ensures |entries| == ROWS
  {
  }

  lemma RowsRun(entries: seq<Entry>, table: seq<nat>, l: seq<Entry>, base: int, n: nat)
    requires n <= ROWS && RowsShow(entries, table, l, base, 0, n)
    ensures Shows(entries, table, l, Run(base, n), true)
  {
    var w := Run(base, n);
    forall i | 0 <= i < n ensures 0 <= Pos(true, w[i]) < |l| && entries[table[i]] == l[Pos(true, w[i])] {
      assert RowShows(entries, table, l, base, i) && w[i] == base + i;
    }
  }

  lemma Shown(entries: seq<Entry>, table: seq<nat>, l: seq<Entry>, base: int, n: nat, i: nat)
    requires i < n && Shows(entries, table, l, Run(base, n), true)
    ensures |entries| == |table| == ROWS && n <= ROWS && table[i] < ROWS && 0 <= base + i < |l|
    ensures entries[table[i]] == l[base + i]
  {
    assert Run(base, n)[i] == base + i;
  }

  lemma ShownUp(entries: seq<Entry>, table: seq<nat>, l: seq<Entry>, top: nat, n: nat, i: nat)
    requires i < n && Shows(entries, table, l, Run(1 - top, n), false)
    ensures |entries| == |table| == ROWS && n <= ROWS && table[i] < ROWS
    ensures 0 <= top - 1 - i < |l| && entries[table[i]] == l[top - 1 - i]
  {
    assert Run(1 - top, n)[i] == 1 - top + i;
  }

  lemma FirstOnly(table: seq<nat>, x: int)
    requires Identity(table, 0)
    ensures Lowest(Run(x, 1), {x} + {}) && Dense(table, 1) && Identity(table, 1) && Run(x, 1) == [x]
  {
    assert Run(x, 1) == [x];
  }

  /** One more slot of the directory, and what it does to the rows behind the one at `top`. */
  lemma BehindStep(d: seq<Entry>, f: Filter, l: seq<Entry>, j: nat, top: nat, w: seq<int>)
    requires Proper(d, f) && IsListing(d, f, l) && j < |d|
    requires Lowest(w, {top} + Wanted(Ranks(d, l), j, true, top + 1))
    ensures Rising(w) && w != [] && w[0] == top && Qualifies(d[j], f) == (Ranks(d, l)[j] >= 0)
    ensures var r := Ranks(d, l)[j];
      if r > top then
        && r < |l| && l[r] == d[j] && r !in w && Admit(w, r) != [] && |Admit(w, r)| <= ROWS
        && Lowest(Admit(w, r), {top} + Wanted(Ranks(d, l), j + 1, true, top + 1))
      else (r >= 0 ==> r < |l| && l[r] == d[j]) && Lowest(w, {top} + Wanted(Ranks(d, l), j + 1, true, top + 1))
  {
    hide Proper(), IsListing(), Qualifies(), Lowest(), Admit(), Wanted(), Ranks();
    var ranks, s := Ranks(d, l), {top} + Wanted(Ranks(d, l), j, true, top + 1);
    var r := ranks[j];
    WantedNext(d, f, l, j, true, top + 1);
    WantedAbove(ranks, j, top + 1);
    StartsWith(w, top, Wanted(ranks, j, true, top + 1));
    LowestFacts(w, s);
    if r > top {
      LowestNext(w, s, r);
      assert s + {r} == {top} + Wanted(ranks, j + 1, true, top + 1);
      LowestFacts(Admit(w, r), s + {r});
      WantedAbove(ranks, j + 1, top + 1);
      StartsWith(Admit(w, r), top, Wanted(ranks, j + 1, true, top + 1));
    }
  }

  /** Everything wanted lies above `x`, so `x` stays the first. */
  lemma StartsWith(w: seq<int>, x: int, s: set<int>)
    requires Lowest(w, {x} + s) && forall y :: y in s ==> x < y
    ensures w != [] && w[0] == x
  {
    assert x in {x} + s;
    assert forall i :: 0 <= i < |w| ==> w[i] in {x} + s;
    assert x in w;
    var i :| 0 <= i < |w| && w[i] == x;
  }

  predicate First(y: int, s: set<int>) {
    y in s && forall x :: x in s ==> y <= x
  }

  lemma FirstOfSpan(y: int, lo: int, hi: int)
    requires First(y, Span(lo, hi))
    ensures y == lo < hi
  {
    assert lo in Span(lo, hi);
  }

  lemma EmptySpan(lo: int, hi: int)
    requires Span(lo, hi) == {}
    ensures hi <= lo
  {
    assert lo < hi ==> lo in Span(lo, hi);
  }

  /** The last slot of the directory that is shown and starts at `cluster`. */
  predicate LastMatch(d: seq<Entry>, f: Filter, cluster: nat, j: int) {
    && 0 <= j < |d| && Qualifies(d[j], f) && d[j].cluster == cluster
    && forall i :: j < i < |d| ==> !(Qualifies(d[i], f) && d[i].cluster == cluster)
  }

  /** It is there exactly if a slot starts there at all, and no such slot comes after it. */
  lemma LastOfMatches(d: seq<Entry>, f: Filter, cluster: nat)
    ensures (exists j :: LastMatch(d, f, cluster, j)) <==>
              exists i :: 0 <= i < |d| && Qualifies(d[i], f) && d[i].cluster == cluster
    ensures forall j, i ::
              LastMatch(d, f, cluster, j) && 0 <= i < |d| && Qualifies(d[i], f) && d[i].cluster == cluster ==>
                             i <= j && d[j].cluster == cluster && Qualifies(d[j], f)
  {
    hide Qualifies;
    if i :| 0 <= i < |d| && Qualifies(d[i], f) && d[i].cluster == cluster {
      var j := i;
      for k := i + 1 to |d|
        invariant i <= j < k && Qualifies(d[j], f) && d[j].cluster == cluster
        invariant forall m :: j < m < k ==> !(Qualifies(d[m], f) && d[m].cluster == cluster)
      {
        if Qualifies(d[k], f) && d[k].cluster == cluster {
          j := k;
        }
      }
      assert LastMatch(d, f, cluster, j);
    }
  }

  /** Rows in the first slots and an untouched rest use every slot. */
  lemma AllSlots(entries: seq<Entry>, table: seq<nat>, l: seq<Entry>, w: seq<int>, up: bool)
    requires Shows(entries, table, l, w, up) && Dense(table, |w|) && Identity(table, |w|)
    ensures Slots(table, ROWS)
  {
  }

  lemma ListingSorted(d: seq<Entry>, f: Filter, l: seq<Entry>)
    requires IsListing(d, f, l)
    ensures Sorted(l)
  {
  }
}
