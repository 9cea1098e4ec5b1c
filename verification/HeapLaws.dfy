/** What the three operations on an arena keep: order, coalescing, the free list, the bytes that belong to
    the heap, and every block they are not about. */
module HeapLaws {
  import opened Basics
  import opened HeapModel

  /** Blocks that overlap are the same block. */
  lemma Unique(l: seq<Block>, b: Block, c: Block)
    requires Ordered(l) && b in l && c in l && b.addr < c.End() && c.addr < b.End()
    ensures b == c
  {
    var i :| 0 <= i < |l| && l[i] == b;
    var j :| 0 <= j < |l| && l[j] == c;
  }

  /** Sorted lists stay sorted when what replaces a stretch fits between its neighbours. */
  lemma JoinOrdered(l: seq<Block>, t: seq<Block>)
    requires Ordered(l) && Ordered(t)
    requires l != [] && t != [] ==> l[|l| - 1].End() <= t[0].addr
    ensures Ordered(l + t)
  {
    var s := l + t;
    forall x, y | 0 <= x < y < |s| ensures s[x].End() <= s[y].addr {
      if x < |l| <= y {
        assert l[x].End() <= l[|l| - 1].End();
        assert t[0].addr <= t[y - |l|].addr;
      }
    }
  }

  lemma SpliceOrdered(l: seq<Block>, i: nat, j: nat, mid: seq<Block>)
    requires Ordered(l) && Ordered(mid) && i <= j <= |l| && |mid| > 0
    requires i > 0 ==> l[i - 1].End() <= mid[0].addr
    requires j < |l| ==> mid[|mid| - 1].End() <= l[j].addr
    ensures Ordered(Splice(l, i, j, mid))
  {
    JoinOrdered(l[..i], mid);
    JoinOrdered(l[..i] + mid, l[j..]);
  }

  lemma SpliceMembers(l: seq<Block>, i: nat, j: nat, mid: seq<Block>)
    requires Ordered(l) && i <= j <= |l|
    ensures forall b :: b in Splice(l, i, j, mid) <==> (b in l && b !in l[i..j]) || b in mid
  {
    hide Splice(), Ordered();
    Spliced(l, i, j, mid);
    assert l == l[..i] + l[i..j] + l[j..];
    forall b | b in l[..i] || b in l[j..] ensures b !in l[i..j] {
      Outside(l, i, j, b);
    }
  }

  lemma Outside(l: seq<Block>, i: nat, j: nat, b: Block)
    requires Ordered(l) && i <= j <= |l| && (b in l[..i] || b in l[j..])
    ensures b !in l[i..j]
  {
    var y :| 0 <= y < |l| && (y < i || y >= j) && l[y] == b;
    assert forall x :: i <= x < j ==> l[x] != b;
  }

  lemma Spliced(l: seq<Block>, i: nat, j: nat, mid: seq<Block>)
    requires i <= j <= |l|
    ensures Splice(l, i, j, mid) == l[..i] + mid + l[j..]
  {
  }

  /** `t` is `l` with the blocks `out` taken away and the blocks `mid` put in. */
  ghost predicate Exchange(l: seq<Block>, t: seq<Block>, out: set<Block>, mid: set<Block>) {
    && (forall b :: b in out ==> b in l)
    && (forall b :: b in t <==> (b in l && b !in out) || b in mid)
  }

  ghost predicate FreeIn(s: set<Block>, x: Addr) {
    exists b :: b in s && b.addr == x && b.kind.Vacant?
  }

  /** The free blocks after an exchange. */
  lemma FreeExchange(l: seq<Block>, t: seq<Block>, out: set<Block>, mid: set<Block>)
    requires Ordered(l) && Exchange(l, t, out, mid)
    ensures forall x :: HasFree(t, x) <==> (HasFree(l, x) && !FreeIn(out, x)) || FreeIn(mid, x)
  {
    forall x | HasFree(t, x) && !FreeIn(mid, x) ensures HasFree(l, x) && !FreeIn(out, x) {
      var c :| c in t && c.addr == x && c.kind.Vacant?;
      if FreeIn(out, x) {
        var b :| b in out && b.addr == x && b.kind.Vacant?;
        assert c in l;
        if b != c {
          Apart(l, b, c);
        }
      }
    }
    forall x | HasFree(l, x) && !FreeIn(out, x) ensures HasFree(t, x) {
      var c :| c in l && c.addr == x && c.kind.Vacant?;
      assert c in t;
    }
    forall x | FreeIn(mid, x) ensures HasFree(t, x) {
      var c :| c in mid && c.addr == x && c.kind.Vacant?;
      assert c in t;
    }
  }

  lemma Apart(l: seq<Block>, b: Block, c: Block)
    requires Ordered(l) && b in l && c in l && b != c
    ensures b.End() <= c.addr || c.End() <= b.addr
    ensures b.addr != c.addr && b.size >= SMALLEST && c.size >= SMALLEST && b.addr > HEAD
  {
    if b.addr < c.End() && c.addr < b.End() {
      Unique(l, b, c);
      assert false;
    }
    var i :| 0 <= i < |l| && l[i] == b;
    var j :| 0 <= j < |l| && l[j] == c;
  }

  lemma Sane(l: seq<Block>, b: Block)
    requires Ordered(l) && b in l
    ensures b.addr > HEAD && b.size >= SMALLEST && !b.kind.Head?
  {
    var i :| 0 <= i < |l| && l[i] == b;
  }

  lemma FreeEntry(a: Arena, b: Block, m: nat)
    requires Ordered(a.layout) && FreeMatch(a) && m < |a.frees|
    requires b in a.layout && b.addr == a.frees[m]
    ensures b.kind.Vacant?
  {
    var x := a.frees[m];
    assert HasFree(a.layout, x);
    var c :| c in a.layout && c.addr == x && c.kind.Vacant?;
    if b != c {
      Apart(a.layout, b, c);
    }
  }

  /** Splitting a free block leaves free blocks apart... */
  lemma SplitCoalesced(l: seq<Block>, t: seq<Block>, b: Block, u: Block, f: Block)
    requires Ordered(l) && Coalesced(l) && Exchange(l, t, {b}, {u, f}) && b.kind.Vacant? && f.size > 0
    requires f.addr > b.addr
    requires u.kind.Used? && f.End() == b.End()
    ensures Coalesced(t)
  {
    forall c, d | c in t && d in t && c.kind.Vacant? && d.kind.Vacant? ensures c.End() != d.addr {
      if d == f && c in l && c != b {
        Apart(l, b, c);
      }
    }
  }

  /** ... and the rest on the free list in its place. */
  lemma SplitMatch(a: Arena, b: Block, m: nat, u: Block, f: Block, t: Arena)
    requires Good(a) && m < |a.frees| && b in a.layout && b.kind.Vacant? && b.addr == a.frees[m]
    requires u.kind.Used? && f.kind.Vacant? && b.addr < f.addr < b.End()
    requires Exchange(a.layout, t.layout, {b}, {u, f}) && t.frees == a.frees[m := f.addr]
    ensures FreeMatch(t) && Distinct(t.frees)
  {
    var l := a.layout;
    if HasFree(l, f.addr) {
      var c :| c in l && c.addr == f.addr && c.kind.Vacant?;
      Apart(l, b, c);
      assert false;
    }
    Sane(l, b);
    InUpdate(a.frees, m, f.addr);
    FreeExchange(l, t.layout, {b}, {u, f});
    forall x ensures FreeIn({b}, x) <==> x == b.addr {
      assert x == b.addr ==> b in {b};
    }
    forall x ensures FreeIn({u, f}, x) <==> x == f.addr {
      assert x == f.addr ==> f in {u, f};
    }
  }

  /** Taking a free block whole. */
  lemma WholeMatch(a: Arena, b: Block, m: nat, u: Block, t: Arena)
    requires Good(a) && m < |a.frees| && b in a.layout && b.kind.Vacant? && b.addr == a.frees[m] && u.kind.Used?
    requires Exchange(a.layout, t.layout, {b}, {u}) && t.frees == Remove(a.frees, m)
    ensures FreeMatch(t) && Distinct(t.frees) && Coalesced(t.layout)
  {
    InRemove(a.frees, m);
    FreeExchange(a.layout, t.layout, {b}, {u});
    FreeOne(b);
  }

  lemma FreeOne(b: Block)
    ensures forall x :: FreeIn({b}, x) <==> x == b.addr && b.kind.Vacant?
  {
    forall x | x == b.addr && b.kind.Vacant? ensures FreeIn({b}, x) {
      assert b in {b};
    }
  }

  lemma FreeTwo(b: Block, c: Block)
    ensures forall x :: FreeIn({b, c}, x) <==> (x == b.addr && b.kind.Vacant?) || (x == c.addr && c.kind.Vacant?)
  {
    assert b in {b, c} && c in {b, c};
    forall x | (x == b.addr && b.kind.Vacant?) || (x == c.addr && c.kind.Vacant?) ensures FreeIn({b, c}, x) { }
  }

  /** Only block `m` may be free and adjoin the free block after it. */
  ghost predicate NearlyCoalesced(l: seq<Block>, m: Block) {
    forall b, c :: b in l && c in l && b.kind.Vacant? && c.kind.Vacant? && b.End() == c.addr ==> b == m
  }

  /** A block in use joins the free block `p` before it. */
  lemma JoinMatch(a: Arena, p: Block, b: Block, m: Block, t: Arena)
    requires Good(a) && p in a.layout && b in a.layout && p.kind.Vacant? && b.kind.Used? && p.End() == b.addr
    requires m == Block(p.addr, p.size + b.size, Vacant) && Exchange(a.layout, t.layout, {p, b}, {m})
    requires t.frees == a.frees
    ensures FreeMatch(t) && NearlyCoalesced(t.layout, m)
  {
    FreeExchange(a.layout, t.layout, {p, b}, {m});
    FreeTwo(p, b);
    FreeOne(m);
    assert HasFree(a.layout, p.addr);
  }

  /** A block in use becomes free where it stands. */
  lemma MarkMatch(a: Arena, b: Block, m: Block, t: Arena)
    requires Good(a) && b in a.layout && b.kind.Used? && m == b.(kind := Vacant)
    requires forall p :: p in a.layout && p.kind.Vacant? ==> p.End() != b.addr
    requires Exchange(a.layout, t.layout, {b}, {m}) && t.frees == [b.addr] + a.frees
    ensures FreeMatch(t) && Distinct(t.frees) && NearlyCoalesced(t.layout, m)
  {
    Sane(a.layout, b);
    FreeExchange(a.layout, t.layout, {b}, {m});
    FreeOne(b);
    FreeOne(m);
    if HasFree(a.layout, b.addr) {
      var c :| c in a.layout && c.addr == b.addr && c.kind.Vacant?;
      Apart(a.layout, b, c);
      assert false;
    }
    assert b.addr !in a.frees;
  }

  /** A free block swallows the free block after it. */
  lemma SwallowMatch(a: Arena, b: Block, n: Block, k: nat, m: Block, t: Arena)
    requires Ordered(a.layout) && FreeMatch(a) && Distinct(a.frees) && NearlyCoalesced(a.layout, b)
    requires b in a.layout && n in a.layout && b.kind.Vacant? && n.kind.Vacant? && b.End() == n.addr && k < |a.frees|
    requires a.frees[k] == n.addr
    requires m == Block(b.addr, b.size + n.size, Vacant) && Exchange(a.layout, t.layout, {b, n}, {m})
    requires t.frees == Remove(a.frees, k)
    ensures FreeMatch(t) && Distinct(t.frees) && Coalesced(t.layout)
  {
    InRemove(a.frees, k);
    Sane(a.layout, b);
    Sane(a.layout, n);
    FreeExchange(a.layout, t.layout, {b, n}, {m});
    FreeTwo(b, n);
    FreeOne(m);
    assert HasFree(a.layout, b.addr);
    forall c, d | c in t.layout && d in t.layout && c.kind.Vacant? && d.kind.Vacant? ensures c.End() != d.addr {
      if d == m && c in a.layout {
        assert c.End() != b.addr || c == b;
      }
      if c == m && d in a.layout && d != n {
        Apart(a.layout, n, d);
        assert n.End() == d.addr ==> n == b;
      }
    }
  }

  // ---------------------------------------------------------------- what changes hands

  ghost predicate CoverIn(s: set<Block>, x: Addr) {
    exists b :: b in s && b.addr <= x < b.End()
  }

  lemma CoverExchange(l: seq<Block>, t: seq<Block>, out: set<Block>, mid: set<Block>)
    requires Exchange(l, t, out, mid)
    requires forall x :: CoverIn(out, x) <==> CoverIn(mid, x)
    ensures SameCover(l, t)
  {
    forall x | Covered(l, x) ensures Covered(t, x) {
      var b :| b in l && b.addr <= x < b.End();
      assert b in out ==> CoverIn(out, x);
      if CoverIn(mid, x) {
        var c :| c in mid && c.addr <= x < c.End();
        assert c in t;
      }
    }
    forall x | Covered(t, x) ensures Covered(l, x) {
      var b :| b in t && b.addr <= x < b.End();
      assert b in mid ==> CoverIn(mid, x);
      if CoverIn(out, x) {
        var c :| c in out && c.addr <= x < c.End();
        assert c in l;
      }
    }
  }

  lemma CoverOne(b: Block)
    ensures forall x :: CoverIn({b}, x) <==> b.addr <= x < b.End()
  {
    forall x | b.addr <= x < b.End() ensures CoverIn({b}, x) {
      assert b in {b};
    }
  }

  lemma CoverTwo(b: Block, c: Block)
    requires b.End() == c.addr
    ensures forall x :: CoverIn({b, c}, x) <==> b.addr <= x < c.End()
  {
    forall x | b.addr <= x < c.End() ensures CoverIn({b, c}, x) {
      assert b in {b, c} && c in {b, c};
    }
  }

  lemma ReplaceOne(l: seq<Block>, k: nat, u: Block)
    requires Ordered(l) && k < |l|
    ensures Exchange(l, Splice(l, k, k + 1, [u]), {l[k]}, {u})
    ensures Bytes(Splice(l, k, k + 1, [u]), Used) == Bytes(l, Used) - Weight(l[k], Used) + Weight(u, Used)
    ensures Bytes(Splice(l, k, k + 1, [u]), Vacant) == Bytes(l, Vacant) - Weight(l[k], Vacant) + Weight(u, Vacant)
  {
    hide Splice(), Ordered(), Bytes, Weight();
    assert l[k..k + 1] == [l[k]];
    SpliceMembers(l, k, k + 1, [u]);
    BytesSplice(l, k, k + 1, [u], Used);
    BytesSplice(l, k, k + 1, [u], Vacant);
    BytesFew(l[k], u);
    BytesFew(u, u);
  }

  lemma ReplaceByTwo(l: seq<Block>, k: nat, u: Block, f: Block)
    requires Ordered(l) && k < |l|
    ensures Exchange(l, Splice(l, k, k + 1, [u, f]), {l[k]}, {u, f})
    ensures Bytes(Splice(l, k, k + 1, [u, f]), Used) ==
              Bytes(l, Used) - Weight(l[k], Used) + Weight(u, Used) + Weight(f, Used)
    ensures Bytes(Splice(l, k, k + 1, [u, f]), Vacant) ==
              Bytes(l, Vacant) - Weight(l[k], Vacant) + Weight(u, Vacant) + Weight(f, Vacant)
  {
    hide Splice(), Ordered(), Bytes, Weight();
    assert l[k..k + 1] == [l[k]];
    SpliceMembers(l, k, k + 1, [u, f]);
    BytesSplice(l, k, k + 1, [u, f], Used);
    BytesSplice(l, k, k + 1, [u, f], Vacant);
    BytesFew(l[k], u);
    BytesFew(u, f);
  }

  lemma ReplaceTwo(l: seq<Block>, k: nat, u: Block)
    requires Ordered(l) && k + 1 < |l|
    ensures Exchange(l, Splice(l, k, k + 2, [u]), {l[k], l[k + 1]}, {u})
    ensures Bytes(Splice(l, k, k + 2, [u]), Used) ==
              Bytes(l, Used) - Weight(l[k], Used) - Weight(l[k + 1], Used) + Weight(u, Used)
    ensures Bytes(Splice(l, k, k + 2, [u]), Vacant) ==
              Bytes(l, Vacant) - Weight(l[k], Vacant) - Weight(l[k + 1], Vacant) + Weight(u, Vacant)
  {
    hide Splice(), Ordered(), Bytes, Weight();
    assert l[k..k + 2] == [l[k], l[k + 1]];
    SpliceMembers(l, k, k + 2, [u]);
    BytesSplice(l, k, k + 2, [u], Used);
    BytesSplice(l, k, k + 2, [u], Vacant);
    BytesFew(l[k], l[k + 1]);
    BytesFew(u, u);
  }

  // ---------------------------------------------------------------- taking

  /** Block `b` is newly in use, out of free memory; nothing else changed hands. */
  ghost predicate Took(l: seq<Block>, t: seq<Block>, b: Block) {
    && b !in Live(l) && Live(t) == Live(l) + {b} && SameCover(l, t)
    && Bytes(t, Used) == Bytes(l, Used) + b.size && Bytes(t, Vacant) == Bytes(l, Vacant) - b.size
  }

  /** Block `b`, in use before, is free; nothing else changed hands. */
  ghost predicate Gave(l: seq<Block>, t: seq<Block>, b: Block) {
    && b in Live(l) && Live(t) == Live(l) - {b} && SameCover(l, t)
    && Bytes(t, Used) == Bytes(l, Used) - b.size && Bytes(t, Vacant) == Bytes(l, Vacant) + b.size
  }

  /** The block that carving leaves in use. */
  function Carved(b: Block, need: nat): Block {
    if b.size >= need + SMALLEST then Block(b.addr, need, Used) else b.(kind := Used)
  }

  predicate Carvable(a: Arena, k: nat, m: nat, need: nat) {
    k < |a.layout| && m < |a.frees| && a.layout[k].addr == a.frees[m] && SMALLEST <= need <= a.layout[k].size
  }

  lemma Neighbours(l: seq<Block>, k: nat)
    requires Ordered(l) && k < |l|
    ensures l[k].addr > HEAD && l[k].size >= SMALLEST && !l[k].kind.Head?
    ensures k > 0 ==> l[k - 1].End() <= l[k].addr
    ensures k + 1 < |l| ==> l[k].End() <= l[k + 1].addr
  {
  }

  lemma OrderedTwo(u: Block, f: Block)
    requires u.addr > HEAD && u.size >= SMALLEST && !u.kind.Head?
    ensures Ordered([u])
    ensures f.size >= SMALLEST && !f.kind.Head? && u.End() <= f.addr ==> Ordered([u, f])
  {
  }

  lemma CarveOrdered(a: Arena, k: nat, m: nat, need: nat)
    requires Good(a) && Carvable(a, k, m, need)
    ensures a.layout[k].kind.Vacant? && Ordered(Carve(a, k, m, need).layout)
  {
    hide Splice(), Ordered(), FreeMatch(), Coalesced();
    var l, b := a.layout, a.layout[k];
    FreeEntry(a, b, m);
    Neighbours(l, k);
    var u, f := Carved(b, need), Block(b.addr + need, b.size - need, Vacant);
    OrderedTwo(u, f);
    if b.size >= need + SMALLEST {
      SpliceOrdered(l, k, k + 1, [u, f]);
    } else {
      SpliceOrdered(l, k, k + 1, [u]);
    }
  }

  /** Carving keeps the arena good and takes exactly the block handed out. */
  lemma CarveLaw(a: Arena, k: nat, m: nat, need: nat)
    requires Good(a) && Carvable(a, k, m, need)
    ensures Good(Carve(a, k, m, need))
    ensures Took(a.layout, Carve(a, k, m, need).layout, Carved(a.layout[k], need))
  {
    hide Splice(), Ordered(), Bytes, FreeMatch();
    var l, b, t := a.layout, a.layout[k], Carve(a, k, m, need);
    CarveOrdered(a, k, m, need);
    Sane(l, b);
    var u := Carved(b, need);
    CoverOne(b);
    if b.size >= need + SMALLEST {
      var f := Block(b.addr + need, b.size - need, Vacant);
      ReplaceByTwo(l, k, u, f);
      SplitCoalesced(l, t.layout, b, u, f);
      SplitMatch(a, b, m, u, f, t);
      CoverTwo(u, f);
      CoverExchange(l, t.layout, {b}, {u, f});
    } else {
      ReplaceOne(l, k, u);
      WholeMatch(a, b, m, u, t);
      CoverOne(u);
      CoverExchange(l, t.layout, {b}, {u});
    }
    if u in Live(l) {
      Apart(l, b, u);
      assert false;
    }
  }

  // ---------------------------------------------------------------- giving back

  /** Everything but that block `m` may adjoin the free block after it. */
  ghost predicate NearlyGood(a: Arena, m: Block) {
    && Ordered(a.layout) && FreeMatch(a) && Distinct(a.frees)
    && NearlyCoalesced(a.layout, m) && m in a.layout && m.kind.Vacant?
  }

  lemma AbsorbOrdered(l: seq<Block>, j: nat)
    requires Ordered(l) && j + 1 < |l| && l[j].End() == l[j + 1].addr
    ensures Ordered(Absorb(l, j))
  {
    hide Splice(), Ordered();
    Neighbours(l, j);
    Neighbours(l, j + 1);
    var u := Block(l[j].addr, l[j].size + l[j + 1].size, Vacant);
    OrderedTwo(u, u);
    SpliceOrdered(l, j, j + 2, [u]);
  }

  lemma RejoinJoined(a: Arena, k: nat)
    requires Good(a) && k < |a.layout| && a.layout[k].kind.Used? && FreeBefore(a.layout, k)
    ensures NearlyGood(Rejoin(a, k), Rejoin(a, k).layout[k - 1])
    ensures Gave(a.layout, Rejoin(a, k).layout, a.layout[k])
  {
    hide Ordered(), Bytes, FreeMatch(), Coalesced(), NearlyCoalesced();
    var l, p, b, t := a.layout, a.layout[k - 1], a.layout[k], Rejoin(a, k);
    var m := Block(p.addr, p.size + b.size, Vacant);
    AbsorbOrdered(l, k - 1);
    ReplaceTwo(l, k - 1, m);
    assert t.layout[k - 1] == m;
    JoinMatch(a, p, b, m, t);
    CoverTwo(p, b);
    CoverOne(m);
    CoverExchange(l, t.layout, {p, b}, {m});
  }

  lemma RejoinMarked(a: Arena, k: nat)
    requires Good(a) && k < |a.layout| && a.layout[k].kind.Used? && !FreeBefore(a.layout, k)
    ensures NearlyGood(Rejoin(a, k), Rejoin(a, k).layout[k])
    ensures Gave(a.layout, Rejoin(a, k).layout, a.layout[k])
  {
    hide Ordered(), Bytes, FreeMatch(), Coalesced(), NearlyCoalesced(), Distinct();
    var l, b, t := a.layout, a.layout[k], Rejoin(a, k);
    var m := b.(kind := Vacant);
    Neighbours(l, k);
    OrderedTwo(m, m);
    SpliceOrdered(l, k, k + 1, [m]);
    ReplaceOne(l, k, m);
    assert t.layout[k] == m;
    OnlyBefore(l, k);
    MarkMatch(a, b, m, t);
    CoverOne(b);
    CoverOne(m);
    CoverExchange(l, t.layout, {b}, {m});
  }

  /** Only the block before `k` can end where `k` starts. */
  lemma OnlyBefore(l: seq<Block>, k: nat)
    requires Ordered(l) && k < |l|
    ensures forall p :: p in l && p.End() == l[k].addr ==> k > 0 && p == l[k - 1]
    ensures forall p :: p in l && p.addr == l[k].End() ==> k + 1 < |l| && p == l[k + 1]
  {
    forall p | p in l && p.End() == l[k].addr ensures k > 0 && p == l[k - 1] {
      var i :| 0 <= i < |l| && l[i] == p;
      assert i < k;
      GapBetween(l, i, k);
    }
    forall p | p in l && p.addr == l[k].End() ensures k + 1 < |l| && p == l[k + 1] {
      var i :| 0 <= i < |l| && l[i] == p;
      assert i > k;
      GapBetween(l, k, i);
    }
  }

  /** Blocks that are not neighbours in the list do not adjoin. */
  lemma GapBetween(l: seq<Block>, i: nat, k: nat)
    requires Ordered(l) && i < k < |l|
    ensures k > i + 1 ==> l[i].End() < l[k].addr
  {
    if k > i + 1 {
      assert l[i].End() <= l[i + 1].addr && l[i + 1].End() <= l[k].addr;
    }
  }

  /** The same blocks in use and the same memory. */
  ghost predicate Steady(l: seq<Block>, t: seq<Block>) {
    Live(t) == Live(l) && SameCover(l, t) && Bytes(t, Used) == Bytes(l, Used) && Bytes(t, Vacant) == Bytes(l, Vacant)
  }

  lemma SwallowLaw(a: Arena, j: nat)
    requires j < |a.layout| && NearlyGood(a, a.layout[j])
    ensures Good(Swallow(a, j)) && Steady(a.layout, Swallow(a, j).layout)
  {
    hide Ordered(), Bytes, Coalesced();
    var l, b := a.layout, a.layout[j];
    OnlyBefore(l, j);
    if Touching(l, j) {
      var n, m := l[j + 1], Block(b.addr, b.size + l[j + 1].size, Vacant);
      assert HasFree(l, n.addr);
      var t, k := Swallow(a, j), Find(a.frees, n.addr);
      AbsorbOrdered(l, j);
      ReplaceTwo(l, j, m);
      SwallowMatch(a, b, n, k, m, t);
      CoverTwo(b, n);
      CoverOne(m);
      CoverExchange(l, t.layout, {b, n}, {m});
    } else {
      ClosedUp(l, j);
    }
  }

  lemma ClosedUp(l: seq<Block>, j: nat)
    requires Ordered(l) && j < |l| && NearlyCoalesced(l, l[j]) && l[j].kind.Vacant? && !Touching(l, j)
    ensures Coalesced(l)
  {
    OnlyBefore(l, j);
  }

  /** Giving block `k` back keeps the arena good and gives back exactly that block. */
  lemma ReleaseLaw(a: Arena, k: nat)
    requires Good(a) && k < |a.layout| && a.layout[k].kind.Used?
    ensures Rejoined(a.layout, k) < |Rejoin(a, k).layout|
    ensures NearlyGood(Rejoin(a, k), Rejoin(a, k).layout[Rejoined(a.layout, k)])
    ensures Good(Release(a, k)) && Gave(a.layout, Release(a, k).layout, a.layout[k])
  {
    hide Ordered(), Bytes, FreeMatch(), Coalesced(), NearlyCoalesced(), Distinct(), Rejoin(), Swallow();
    if FreeBefore(a.layout, k) {
      RejoinSize(a, k);
      RejoinJoined(a, k);
    } else {
      RejoinSize(a, k);
      RejoinMarked(a, k);
    }
    SwallowLaw(Rejoin(a, k), Rejoined(a.layout, k));
  }

  lemma RejoinSize(a: Arena, k: nat)
    requires k < |a.layout|
    ensures Rejoined(a.layout, k) < |Rejoin(a, k).layout|
  {
  }

  // ---------------------------------------------------------------- new memory

  /** Block `k` is where memory from `p` belongs. */
  predicate Fits(l: seq<Block>, k: nat, p: Addr, n: nat) {
    && p > HEAD && n >= SMALLEST && k <= |l|
    && (k > 0 ==> l[k - 1].End() <= p) && (k < |l| ==> p + n <= l[k].addr)
  }

  /** New memory starts as a block in use; giving that block back makes it free. */
  lemma AdmitLaw(a: Arena, k: nat, p: Addr, n: nat)
    requires Good(a) && Fits(a.layout, k, p, n)
    ensures Good(Admit(a, k, p, n))
    ensures var t := Admit(a, k, p, n).layout;
      && Block(p, n, Used) !in Live(a.layout) && Live(t) == Live(a.layout) + {Block(p, n, Used)}
      && (forall x :: Covered(t, x) <==> Covered(a.layout, x) || p <= x < p + n)
      && Bytes(t, Used) == Bytes(a.layout, Used) + n && Bytes(t, Vacant) == Bytes(a.layout, Vacant)
  {
    hide Ordered(), Bytes, Distinct();
    var l, u, t := a.layout, Block(p, n, Used), Admit(a, k, p, n);
    OrderedTwo(u, u);
    SpliceOrdered(l, k, k, [u]);
    SpliceMembers(l, k, k, [u]);
    assert l[k..k] == [];
    FreeExchange(l, t.layout, {}, {u});
    AdmitBytes(l, k, u);
    AdmitCover(l, t.layout, u);
    FitsNew(l, k, p, n);
  }

  lemma AdmitBytes(l: seq<Block>, k: nat, u: Block)
    requires k <= |l| && u.kind.Used?
    ensures Bytes(Splice(l, k, k, [u]), Used) == Bytes(l, Used) + u.size
    ensures Bytes(Splice(l, k, k, [u]), Vacant) == Bytes(l, Vacant)
  {
    BytesSplice(l, k, k, [u], Used);
    BytesSplice(l, k, k, [u], Vacant);
    BytesFew(u, u);
    assert l[k..k] == [];
  }

  lemma AdmitCover(l: seq<Block>, t: seq<Block>, u: Block)
    requires Exchange(l, t, {}, {u})
    ensures forall x :: Covered(t, x) <==> Covered(l, x) || u.addr <= x < u.End()
  {
    forall x | Covered(l, x) ensures Covered(t, x) {
      var b :| b in l && b.addr <= x < b.End();
      assert b in t;
    }
    assert u in t;
  }

  lemma FitsNew(l: seq<Block>, k: nat, p: Addr, n: nat)
    requires Ordered(l) && Fits(l, k, p, n)
    ensures forall b :: b in l ==> b.End() <= p || p + n <= b.addr
    ensures Block(p, n, Used) !in l
  {
    forall b | b in l ensures b.End() <= p || p + n <= b.addr {
      var i :| 0 <= i < |l| && l[i] == b;
      if i < k {
        assert l[i].End() <= l[k - 1].End();
      } else {
        assert l[k].addr <= l[i].addr;
      }
    }
  }

  // ---------------------------------------------------------------- one layout per set of live blocks

  /** A byte of a free block is in no block in use of an arena with the same blocks in use. */
  lemma FreeThere(l: seq<Block>, t: seq<Block>, c: Block, x: Addr) returns (d: Block)
    requires Ordered(l) && Ordered(t) && Live(l) == Live(t) && SameCover(l, t)
    requires c in l && c.kind.Vacant? && c.addr <= x < c.End()
    ensures d in t && d.kind.Vacant? && d.addr <= x < d.End()
  {
    assert Covered(l, x) && Covered(t, x);
    d :| d in t && d.addr <= x < d.End();
    Sane(t, d);
    if d.kind.Used? {
      assert d in Live(l);
      Unique(l, c, d);
      assert false;
    }
  }

  /** Every free block of one is a free block of the other. */
  lemma SameFreeBlock(l: seq<Block>, t: seq<Block>, c: Block)
    requires Ordered(l) && Ordered(t) && Coalesced(l) && Coalesced(t) && Live(l) == Live(t) && SameCover(l, t)
    requires c in l && c.kind.Vacant?
    ensures c in t
  {
    Sane(l, c);
    var d := FreeThere(l, t, c, c.addr);
    if d.addr < c.addr {
      var e := FreeThere(t, l, d, c.addr - 1);
      Apart(l, e, c);
      assert false;
    }
    if d.End() < c.End() {
      var e := FreeThere(l, t, c, d.End());
      Apart(t, d, e);
      assert false;
    }
    if c.End() < d.End() {
      var e := FreeThere(t, l, d, c.End());
      Apart(l, c, e);
      assert false;
    }
  }

  lemma LastBlock(l: seq<Block>)
    requires Ordered(l) && l != []
    ensures Ordered(l[..|l| - 1]) && l[|l| - 1] in l && l[|l| - 1].size >= SMALLEST
    ensures forall b :: b in l <==> b in l[..|l| - 1] || b == l[|l| - 1]
    ensures forall b :: b in l[..|l| - 1] ==> b != l[|l| - 1] && b.End() <= l[|l| - 1].addr && b.size >= SMALLEST
  {
    var n := |l| - 1;
    assert l == l[..n] + [l[n]];
    forall b | b in l[..n] ensures b != l[n] && b.End() <= l[n].addr && b.size >= SMALLEST {
      var i :| 0 <= i < n && l[i] == b;
    }
  }

  lemma Nothing(l: seq<Block>)
    ensures l == [] <==> forall b :: b !in l
  {
    if l != [] {
      assert l[0] in l;
    }
  }

  lemma {:induction false} SameMembers(l: seq<Block>, t: seq<Block>)
    requires Ordered(l) && Ordered(t) && forall b :: b in l <==> b in t
    ensures l == t
  {
    hide Ordered();
    if l == [] || t == [] {
      Nothing(l);
      Nothing(t);
    } else {
      var n, m := |l| - 1, |t| - 1;
      LastBlock(l);
      LastBlock(t);
      assert l[n] in t && t[m] in l;
      assert l[n] == t[m];
      forall b ensures b in l[..n] <==> b in t[..m] {
        assert b in l <==> b in t;
      }
      SameMembers(l[..n], t[..m]);
      assert l == l[..n] + [l[n]] && t == t[..m] + [t[m]];
    }
  }

  /** The block list is fixed by the memory of the heap and the blocks in use, whatever calls led there: once
      everything is given back, the heap is laid out as if nothing had been taken. */
  lemma LayoutDetermined(a: Arena, b: Arena)
    requires Good(a) && Good(b) && Live(a.layout) == Live(b.layout) && SameCover(a.layout, b.layout)
    ensures a.layout == b.layout
  {
    var l, t := a.layout, b.layout;
    forall c | c in l ensures c in t {
      Sane(l, c);
      if c.kind.Vacant? {
        SameFreeBlock(l, t, c);
      } else {
        assert c in Live(l);
      }
    }
    forall c | c in t ensures c in l {
      Sane(t, c);
      if c.kind.Vacant? {
        SameFreeBlock(t, l, c);
      } else {
        assert c in Live(t);
      }
    }
    SameMembers(l, t);
  }

  // ---------------------------------------------------------------- addresses and sizes

  lemma AddrsDistinct(l: seq<Block>)
    requires Ordered(l)
    ensures Distinct(Addrs(l))
  {
  }

  lemma AddrsJoin(l: seq<Block>, t: seq<Block>)
    ensures Addrs(l + t) == Addrs(l) + Addrs(t)
  {
  }

  lemma AddrsSplice(l: seq<Block>, i: nat, j: nat, mid: seq<Block>)
    requires i <= j <= |l|
    ensures Addrs(Splice(l, i, j, mid)) == Addrs(l)[..i] + Addrs(mid) + Addrs(l)[j..]
  {
    AddrsJoin(l[..i] + mid, l[j..]);
    AddrsJoin(l[..i], mid);
    assert Addrs(l[..i]) == Addrs(l)[..i] && Addrs(l[j..]) == Addrs(l)[j..];
  }

  /** An address inside a block is not where a block starts. */
  lemma InsideBlock(a: Arena, b: Block, x: Addr)
    requires Ordered(a.layout) && FreeMatch(a) && b in a.layout && b.addr < x < b.End()
    ensures x !in Addrs(a.layout) && x !in a.frees
  {
    if x in Addrs(a.layout) {
      var i := Find(Addrs(a.layout), x);
      Sane(a.layout, a.layout[i]);
      Unique(a.layout, a.layout[i], b);
      assert false;
    }
    if x in a.frees {
      assert HasFree(a.layout, x);
      var c :| c in a.layout && c.addr == x && c.kind.Vacant?;
      Sane(a.layout, c);
      Unique(a.layout, c, b);
      assert false;
    }
  }

  /** Sum of the sizes recorded for the addresses of a list. */
  function Total(size: map<Addr, nat>, s: seq<Addr>): nat
    requires forall i :: 0 <= i < |s| ==> s[i] in size
  {
    if s == [] then 0 else
      Total(size, s[..|s| - 1]) + size[s[|s| - 1]]
  }

  lemma TotalPush(size: map<Addr, nat>, s: seq<Addr>, x: Addr)
    requires (forall i :: 0 <= i < |s| ==> s[i] in size) && x in size
    ensures Total(size, s + [x]) == Total(size, s) + size[x]
  {
    assert (s + [x])[..|s|] == s;
  }

  lemma {:induction false} TotalRemove(size: map<Addr, nat>, s: seq<Addr>, k: nat)
    requires k < |s| && forall i :: 0 <= i < |s| ==> s[i] in size
    ensures forall i :: 0 <= i < |s| - 1 ==> Remove(s, k)[i] in size
    ensures Total(size, s) == Total(size, Remove(s, k)) + size[s[k]]
  {
    hide Total();
    var t, x := s[..|s| - 1], s[|s| - 1];
    assert s == t + [x];
    TotalPush(size, t, x);
    if k == |s| - 1 {
      assert Remove(s, k) == t;
    } else {
      TotalRemove(size, t, k);
      assert Remove(s, k) == Remove(t, k) + [x];
      TotalPush(size, Remove(t, k), x);
    }
  }

  lemma BytesLast(l: seq<Block>)
    ensures l == [] ==> Bytes(l, Vacant) == 0
    ensures l != [] ==> Bytes(l, Vacant) == Bytes(l[..|l| - 1], Vacant) + Weight(l[|l| - 1], Vacant)
  {
  }

  lemma FirstFree(a: Arena)
    requires FreeMatch(a) && a.frees != []
    ensures HasFree(a.layout, a.frees[0])
  {
  }

  /** Adding up along the free list gives all the free bytes. */
  lemma {:induction false} FreeTotal(a: Arena, size: map<Addr, nat>)
    requires Ordered(a.layout) && FreeMatch(a) && Distinct(a.frees)
    requires forall b :: b in a.layout ==> b.addr in size && size[b.addr] == b.size
    ensures (forall i :: 0 <= i < |a.frees| ==> a.frees[i] in size) && Total(size, a.frees) == Bytes(a.layout, Vacant)
    decreases |a.layout|
  {
    hide Ordered(), Bytes;
    BytesLast(a.layout);
    var l := a.layout;
    forall i | 0 <= i < |a.frees| ensures a.frees[i] in size {
      assert HasFree(l, a.frees[i]);
    }
    if l == [] {
      if a.frees != [] {
        FirstFree(a);
        assert false;
      }
    } else {
      var n, b := |l| - 1, l[|l| - 1];
      LastBlock(l);
      if b.kind.Vacant? {
        assert HasFree(l, b.addr);
        var k := Find(a.frees, b.addr);
        InRemove(a.frees, k);
        var t := Arena(l[..n], Remove(a.frees, k));
        forall x ensures HasFree(t.layout, x) <==> HasFree(l, x) && x != b.addr {
          if HasFree(l, x) && x != b.addr {
            var c :| c in l && c.addr == x && c.kind.Vacant?;
            assert c in t.layout;
          }
        }
        FreeTotal(t, size);
        TotalRemove(size, a.frees, k);
      } else {
        var t := Arena(l[..n], a.frees);
        forall x ensures HasFree(t.layout, x) <==> HasFree(l, x) {
          if HasFree(l, x) {
            var c :| c in l && c.addr == x && c.kind.Vacant?;
            assert c in t.layout;
          }
        }
        FreeTotal(t, size);
      }
    }
  }
}
