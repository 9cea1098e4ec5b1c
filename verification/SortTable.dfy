/** The eight rows on display: entries stay where they were stored and a table of slot numbers orders them. */
module SortTable {
  import opened Basics
  import opened DirOrder

  /** MAXDIRENTRIES. */
  const ROWS: nat := 8

  // ---------------------------------------------------------------- windows of positions

  predicate Rising(w: seq<int>) {
    forall i, j :: 0 <= i < j < |w| ==> w[i] < w[j]
  }

  /** `x` put where it belongs in a rising sequence. */
  function Insert(u: seq<int>, x: int): seq<int> {
    if u == [] then [x]
    else if x < u[|u| - 1] then Insert(u[..|u| - 1], x) + [u[|u| - 1]]
    else u + [x]
  }

  lemma {:induction false} InsertAt(u: seq<int>, x: int, i: nat)
    requires Rising(u) && i <= |u| && (i > 0 ==> u[i - 1] <= x) && (i < |u| ==> x < u[i])
    ensures Insert(u, x) == u[..i] + [x] + u[i..]
  {
    var m := |u| - 1;
    if i == |u| {
      assert u[..i] == u;
    } else {
      assert x < u[m];
      InsertAt(u[..m], x, i);
      assert u[..m][..i] == u[..i] && u[i..] == u[..m][i..] + [u[m]];
    }
  }

  /** Everything before the last of a rising sequence is below it. */
  lemma BelowLast(u: seq<int>)
    requires Rising(u) && u != []
    ensures Rising(u[..|u| - 1])
    ensures var v := u[..|u| - 1]; forall y :: y in u <==> y in v || y == u[|u| - 1]
    ensures var v := u[..|u| - 1]; forall y :: y in v ==> y < u[|u| - 1]
  {
    var m := |u| - 1;
    assert u == u[..m] + [u[m]];
    forall y | y in u[..m] ensures y < u[m] {
      var j :| 0 <= j < m && u[j] == y;
    }
  }

  lemma RisingPush(u: seq<int>, x: int)
    requires Rising(u) && forall y :: y in u ==> y < x
    ensures Rising(u + [x])
  {
    forall i | 0 <= i < |u| ensures u[i] < x {
      assert u[i] in u;
    }
  }

  lemma {:induction false} InsertRising(u: seq<int>, x: int)
    requires Rising(u) && x !in u
    ensures Rising(Insert(u, x)) && |Insert(u, x)| == |u| + 1
    ensures forall y :: y in Insert(u, x) <==> y in u || y == x
  {
    if u != [] {
      hide Rising();
      var m := |u| - 1;
      BelowLast(u);
      if x < u[m] {
        InsertRising(u[..m], x);
        RisingPush(Insert(u[..m], x), u[m]);
      } else {
        assert forall y :: y in u ==> y < x;
        RisingPush(u, x);
      }
    }
  }

  /** What a window of the lowest positions becomes when one more is met. */
  function Admit(w: seq<int>, x: int): seq<int> {
    if |w| < ROWS then Insert(w, x)
    else if x < w[|w| - 1] then Insert(w[..|w| - 1], x)
    else w
  }

  /** `w` is the `ROWS` lowest members of `s`, in order, or all of them. */
  ghost predicate Lowest(w: seq<int>, s: set<int>) {
    && Rising(w) && |w| <= ROWS && (forall x :: x in w ==> x in s)
    && (forall x :: x in s && x !in w ==> |w| == ROWS && w[ROWS - 1] < x)
  }

  lemma LowestNone()
    ensures Lowest([], {})
  {
  }

  lemma LowestNext(w: seq<int>, s: set<int>, x: int)
    requires Lowest(w, s) && x !in s
    ensures Lowest(Admit(w, x), s + {x})
  {
    hide Rising();
    if |w| < ROWS {
      InsertRising(w, x);
    } else {
      var m := |w| - 1;
      BelowLast(w);
      if x < w[m] {
        InsertRising(w[..m], x);
        var r := Insert(w[..m], x);
        assert r[m] in r;
        assert r[m] < w[m];
      }
    }
  }

  function Run(lo: int, n: nat): (w: seq<int>)
    ensures |w| == n && forall i :: 0 <= i < n ==> w[i] == lo + i
  {
    seq(n, i => lo + i)
  }

  /** The lowest of an interval are its beginning. */
  lemma LowestOfSpan(w: seq<int>, lo: int, hi: int)
    requires lo <= hi && Lowest(w, Span(lo, hi))
    ensures w == Run(lo, Least(ROWS, hi - lo))
  {
    StartsAt(w, lo, hi);
    if |w| < hi - lo {
      assert lo + |w| in Span(lo, hi) && lo + |w| !in w;
      assert |w| == ROWS;
    }
    if |w| > 0 {
      assert w[|w| - 1] in w;
    }
  }

  lemma StartsAt(w: seq<int>, lo: int, hi: int)
    requires lo <= hi && Lowest(w, Span(lo, hi))
    ensures forall i :: 0 <= i < |w| ==> w[i] == lo + i
  {
    var i := 0;
    while i < |w|
      invariant i <= |w| && forall j :: 0 <= j < i ==> w[j] == lo + j
    {
      assert w[i] in w;
      assert i > 0 ==> w[i - 1] < w[i];
      assert i < |w| - 1 ==> w[i] < w[|w| - 1];
      assert lo + i in Span(lo, hi);
      assert lo + i in w;
      var j :| 0 <= j < |w| && w[j] == lo + i;
      assert j >= i;
      i := i + 1;
    }
  }

  // ---------------------------------------------------------------- rows on display

  /** The first `n` slot numbers are different slots. */
  predicate Slots(table: seq<nat>, n: nat) {
    && n <= |table| == ROWS
    && (forall i :: 0 <= i < n ==> table[i] < ROWS)
    && (forall i, j :: 0 <= i < j < n ==> table[i] != table[j])
  }

  /** Position of a listing entry from a sort key that grows up or down the listing. */
  function Pos(up: bool, x: int): int {
    if up then x else -x
  }

  /** Row `i` shows the entry at position `w[i]` of the listing. */
  predicate Shows(entries: seq<Entry>, table: seq<nat>, l: seq<Entry>, w: seq<int>, up: bool) {
    && |entries| == ROWS && Slots(table, |w|)
    && forall i :: 0 <= i < |w| ==> 0 <= Pos(up, w[i]) < |l| && entries[table[i]] == l[Pos(up, w[i])]
  }

  ghost predicate Sorted(l: seq<Entry>) {
    Ascending(l) && forall i :: 0 <= i < |l| ==> l[i].Sound()
  }

  function Swap<T>(s: seq<T>, i: nat, j: nat): seq<T>
    requires i < |s| && j < |s|
  {
    s[i := s[j]][j := s[i]]
  }

  lemma ShowsSwap(entries: seq<Entry>, table: seq<nat>, l: seq<Entry>, w: seq<int>, up: bool, i: nat, j: nat)
    requires Shows(entries, table, l, w, up) && i < |w| && j < |w|
    ensures Shows(entries, Swap(table, i, j), l, Swap(w, i, j), up)
  {
  }

  /** Storing another entry in the slot of one row. */
  lemma ShowsStore(entries: seq<Entry>, table: seq<nat>, l: seq<Entry>, w: seq<int>, up: bool, i: nat, x: int)
    requires Shows(entries, table, l, w, up) && i < |w| && 0 <= Pos(up, x) < |l|
    ensures Shows(entries[table[i] := l[Pos(up, x)]], table, l, w[i := x], up)
  {
  }

  /** The first `n` rows use the first `n` slots. */
  predicate Dense(table: seq<nat>, n: nat) {
    n <= |table| == ROWS && forall i :: 0 <= i < n ==> table[i] < n
  }

  /** Behind the first `n` rows the table is as it was set up. */
  predicate Identity(table: seq<nat>, n: nat) {
    |table| == ROWS && forall i :: n <= i < ROWS ==> table[i] == i
  }

  lemma IdentityTail(table: seq<nat>, t: seq<nat>, n: nat, m: nat)
    requires Identity(table, n) && n <= m <= |t| == ROWS && t[m..] == table[m..]
    ensures Identity(t, m)
  {
    forall i | m <= i < ROWS ensures t[i] == i {
      assert t[m..][i - m] == table[m..][i - m];
    }
  }

  /** `x` has sunk to row `i` among the rising rows `u`. */
  function Sunk(u: seq<int>, x: int, i: nat): (w: seq<int>)
    requires i <= |u|
    ensures |w| == |u| + 1
  {
    u[..i] + [x] + u[i..]
  }

  lemma SunkLast(u: seq<int>, x: int)
    ensures Sunk(u, x, |u|) == u + [x]
  {
  }

  lemma InsertSunk(u: seq<int>, x: int, i: nat)
    requires Rising(u) && i <= |u| && (i > 0 ==> u[i - 1] <= x) && (i < |u| ==> x < u[i])
    ensures Insert(u, x) == Sunk(u, x, i)
  {
    InsertAt(u, x, i);
  }

  lemma SunkFurther(u: seq<int>, x: int, i: nat)
    requires 0 < i <= |u|
    ensures Sunk(u, x, i)[i] == x && Sunk(u, x, i)[i - 1] == u[i - 1]
    ensures Swap(Sunk(u, x, i), i, i - 1) == Sunk(u, x, i - 1)
  {
  }

  /** Whether row `i` belongs before row `j`. */
  method Precedes(entries: array<Entry>, table: array<nat>, i: nat, j: nat, up: bool, ghost l: seq<Entry>,
      ghost w: seq<int>)
    returns (b: bool)
    requires entries.Length == table.Length == ROWS && i < |w| && j < |w| && Sorted(l)
    requires Shows(entries[..], table[..], l, w, up)
    ensures b <==> w[i] < w[j]
  {
    hide Below(), Key();
    ghost var p, q := Pos(up, w[i]), Pos(up, w[j]);
    PositionOrder(l, p, q);
    PositionOrder(l, q, p);
    var rc := CompareDirEntries(entries[table[i]], entries[table[j]]);
    b := if up then rc < 0 else rc > 0;
  }

  /** Exchanges two rows. */
  method SwapRows(table: array<nat>, i: nat, j: nat, ghost entries: seq<Entry>, ghost l: seq<Entry>, ghost w: seq<int>,
      ghost up: bool)
    requires table.Length == ROWS && i < |w| && j < |w| && Shows(entries, table[..], l, w, up)
    modifies table
    ensures Shows(entries, table[..], l, Swap(w, i, j), up) && table[..] == Swap(old(table[..]), i, j)
  {
    ShowsSwap(entries, table[..], l, w, up, i, j);
    table[i], table[j] := table[j], table[i];
    assert table[..] == Swap(old(table[..]), i, j);
  }

  lemma SwapDense(table: seq<nat>, n: nat, i: nat, j: nat)
    requires Dense(table, n) && i < n && j < n
    ensures Dense(Swap(table, i, j), n) && Swap(table, i, j)[n..] == table[n..]
  {
  }

  /** One pass of bubble sort: the last of `n` rows sinks to its place. */
  method Bubble(entries: array<Entry>, table: array<nat>, n: nat, up: bool, ghost l: seq<Entry>, ghost u: seq<int>,
      ghost x: int)
    requires entries.Length == table.Length == ROWS && 1 <= n <= ROWS && |u| == n - 1
    requires Sorted(l) && Rising(u) && x !in u && Shows(entries[..], table[..], l, u + [x], up) && Dense(table[..], n)
    modifies table
    ensures Shows(entries[..], table[..], l, Insert(u, x), up) && Dense(table[..], n)
    ensures table[n..] == old(table[n..])
  {
    hide Shows(), Sorted(), Insert, Dense(), Sunk(), Swap();
    var i := n - 1;
    SunkLast(u, x);
    while i > 0
      invariant 0 <= i <= n - 1 && i <= |u|
      invariant Shows(entries[..], table[..], l, Sunk(u, x, i), up) && Dense(table[..], n)
      invariant i < |u| ==> x < u[i]
      invariant table[..][n..] == old(table[n..])
    {
      SunkFurther(u, x, i);
      var before := Precedes(entries, table, i, i - 1, up, l, Sunk(u, x, i));
      if before {
        SwapDense(table[..], n, i, i - 1);
        SwapRows(table, i, i - 1, entries[..], l, Sunk(u, x, i), up);
        i := i - 1;
      } else {
        break;
      }
    }
    InsertSunk(u, x, i);
  }

  lemma ShowsPush(entries: seq<Entry>, table: seq<nat>, l: seq<Entry>, w: seq<int>, up: bool, x: int)
    requires Shows(entries, table, l, w, up) && Dense(table, |w|) && |w| < ROWS && 0 <= Pos(up, x) < |l|
    ensures Shows(entries[|w| := l[Pos(up, x)]], table[|w| := |w|], l, w + [x], up) && Dense(table[|w| := |w|], |w| + 1)
  {
    var t, v := table[|w| := |w|], w + [x];
    assert forall i :: 0 <= i < |w| ==> v[i] == w[i];
  }

  lemma AdmitFull(w: seq<int>, x: int)
    requires Rising(w) && |w| == ROWS && x !in w
    ensures Admit(w, x) == if x < w[7] then Insert(w[..7], x) else Insert(w[..7], w[7])
    ensures w[..7] + [w[7]] == w && w[7 := x] == w[..7] + [x] && x !in w[..7] && w[7] !in w[..7] && Rising(w[..7])
  {
    InsertAt(w[..7], w[7], 7);
    assert w[..7] + [w[7]] == w;
  }

  /** Takes one more entry into a window of the lowest eight: into the first free slot, or in the place of the last. */
  method Take(entries: array<Entry>, table: array<nat>, n: nat, e: Entry, up: bool, temporary: bool,
      ghost l: seq<Entry>, ghost w: seq<int>, ghost x: int) returns (m: nat)
    requires entries.Length == table.Length == ROWS && Sorted(l) && Rising(w) && |w| == n <= ROWS && x !in w
    requires Shows(entries[..], table[..], l, w, up) && Dense(table[..], n) && 0 <= Pos(up, x) < |l|
    requires l[Pos(up, x)] == e
    requires !temporary ==> Identity(table[..], n)
    modifies entries, table
    ensures m == |Admit(w, x)| && Shows(entries[..], table[..], l, Admit(w, x), up) && Dense(table[..], m)
    ensures !temporary ==> Identity(table[..], m)
  {
    hide Shows(), Insert, Dense(), Below(), Key(), Slots(), Rising();
    if n < ROWS {
      ShowsPush(entries[..], table[..], l, w, up, x);
      ghost var was := entries[..];
      entries[n] := e;
      if temporary {
        table[n] := n;
      }
      assert entries[..] == was[n := e];
      assert table[..] == old(table[..])[n := n];
      m := n + 1;
      InsertLength(w, x);
      ghost var pushed := table[..];
      Bubble(entries, table, m, up, l, w, x);
      if !temporary {
        IdentityTail(pushed, table[..], m, m);
      }
    } else {
      m := n;
      AdmitFull(w, x);
      InsertLength(w[..7], x);
      InsertLength(w[..7], w[7]);
      var before := BeforeLast(entries, table, e, up, l, w, x);
      if before {
        ReplaceLast(entries, table, e, up, l, w, x);
        Bubble(entries, table, m, up, l, w[..7], x);
      } else {
        Bubble(entries, table, m, up, l, w[..7], w[7]);
      }
    }
  }

  lemma {:induction false} InsertLength(u: seq<int>, x: int)
    ensures |Insert(u, x)| == |u| + 1
  {
    if u != [] {
      InsertLength(u[..|u| - 1], x);
    }
  }

  /** Whether `e` belongs before the last of eight rows. */
  method BeforeLast(entries: array<Entry>, table: array<nat>, e: Entry, up: bool, ghost l: seq<Entry>,
      ghost w: seq<int>, ghost x: int)
    returns (b: bool)
    requires entries.Length == table.Length == ROWS && |w| == ROWS && Sorted(l)
    requires Shows(entries[..], table[..], l, w, up)
    requires 0 <= Pos(up, x) < |l| && l[Pos(up, x)] == e
    ensures b <==> x < w[ROWS - 1]
  {
    var rc := CompareRow(entries, table, ROWS - 1, e, up, l, w, x);
    b := if up then rc < 0 else rc > 0;
  }

  /** Compares an entry with a row. */
  method CompareRow(entries: array<Entry>, table: array<nat>, i: nat, e: Entry, up: bool, ghost l: seq<Entry>,
      ghost w: seq<int>, ghost x: int)
    returns (rc: int)
    requires entries.Length == table.Length == ROWS && i < |w| && Sorted(l) && Shows(entries[..], table[..], l, w, up)
    requires 0 <= Pos(up, x) < |l| && l[Pos(up, x)] == e
    ensures rc < 0 <==> Pos(up, x) < Pos(up, w[i])
    ensures rc > 0 <==> Pos(up, x) > Pos(up, w[i])
  {
    hide Below(), Key();
    PositionOrder(l, Pos(up, x), Pos(up, w[i]));
    PositionOrder(l, Pos(up, w[i]), Pos(up, x));
    rc := CompareDirEntries(e, entries[table[i]]);
  }

  method ReplaceLast(entries: array<Entry>, table: array<nat>, e: Entry, up: bool, ghost l: seq<Entry>,
      ghost w: seq<int>, ghost x: int)
    requires entries.Length == table.Length == ROWS && |w| == ROWS && Shows(entries[..], table[..], l, w, up)
    requires 0 <= Pos(up, x) < |l| && l[Pos(up, x)] == e
    modifies entries
    ensures Shows(entries[..], table[..], l, w[7 := x], up)
  {
    ShowsStore(entries[..], table[..], l, w, up, 7, x);
    ghost var was := entries[..];
    entries[table[ROWS - 1]] := e;
    assert entries[..] == was[table[ROWS - 1] := e];
  }
}
