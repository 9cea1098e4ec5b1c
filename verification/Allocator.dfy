/** The linked-list allocator over its header fields. The fields of all headers are maps from the header's
    address; the two doubly linked lists run through a static head. */
module Allocator {
  import opened Basics
  import opened HeapModel
  import opened HeapLaws

  const NULL: Addr := 0

  /** Memory is added in multiples of this. */
  const CHUNK: nat := 512

  /** The least multiple of a header's 16 bytes that holds the request behind a header. */
  predicate Suits(need: nat, request: nat) {
    need % 16 == 0 && request + 16 <= need < request + 32
  }

  /** Some free block holds a multiple of 16 bytes with room for the request and a header. */
  ghost predicate HasRoom(l: seq<Block>, request: nat) {
    exists b, need: nat :: b in l && b.kind.Vacant? && need <= b.size && Suits(need, request)
  }

  function WholeChunks(n: nat): nat {
    n / CHUNK * CHUNK
  }

  predicate Inside(x: Addr, p: Addr, n: nat) {
    p <= x < p + n
  }

  ghost function Region(p: Addr, n: nat): iset<Addr> {
    iset x | Inside(x, p, n)
  }

  /** The largest multiple of 512 that `n` has room for; the region is those bytes from `p` on. */
  lemma ChunksTell(pool: iset<Addr>, p: Addr, n: nat)
    ensures var grown := WholeChunks(n);
      && grown % 512 == 0 && grown <= n < grown + 512
      && forall x :: x in pool + Region(p, grown) <==> x in pool || p <= x < p + grown
  {
  }

  /** The headers in memory record the blocks; block `loose` may be marked either way. */
  predicate Headers(kind: map<Addr, Kind>, size: map<Addr, nat>, l: seq<Block>, loose: Addr) {
    && HEAD in kind && HEAD in size && kind[HEAD].Head?
    && forall b :: b in l ==>
      b.addr in kind && b.addr in size && size[b.addr] == b.size && (b.addr != loose ==> kind[b.addr] == b.kind)
  }

  /** What the six header fields hold when they hold an arena. */
  predicate Stores(kind: map<Addr, Kind>, size: map<Addr, nat>, next: map<Addr, Addr>, prev: map<Addr, Addr>,
                   nextFree: map<Addr, Addr>, prevFree: map<Addr, Addr>, a: Arena, loose: Addr) {
    && Headers(kind, size, a.layout, loose)
    && Ring(next, prev, Addrs(a.layout)) && Ring(nextFree, prevFree, a.frees)
  }

  // ---------------------------------------------------------------- fields under each step

  lemma HeadersExchange(kind: map<Addr, Kind>, size: map<Addr, nat>, kind': map<Addr, Kind>, size': map<Addr, nat>,
      l: seq<Block>, t: seq<Block>, out: set<Block>, mid: set<Block>, loose: Addr)
    requires Headers(kind, size, l, loose) && Exchange(l, t, out, mid)
    requires forall b :: b in l && b !in out ==> b.addr != loose
    requires HEAD in kind' && HEAD in size' && kind'[HEAD].Head?
    requires forall b :: b in mid ==>
              b.addr in kind' && b.addr in size' && kind'[b.addr] == b.kind && size'[b.addr] == b.size
    requires forall b :: b in l && b !in out ==> b.addr in kind' && b.addr in size'
    requires forall b :: b in l && b !in out ==> kind'[b.addr] == kind[b.addr] && size'[b.addr] == size[b.addr]
    ensures Headers(kind', size', t, HEAD)
  {
  }

  /** Writing the header of the one block that takes the place of others. */
  lemma OneHeader(kind: map<Addr, Kind>, size: map<Addr, nat>, l: seq<Block>, t: seq<Block>, out: set<Block>, b: Block,
      u: Block, loose: Addr)
    requires Ordered(l) && Headers(kind, size, l, loose) && Exchange(l, t, out, {u})
    requires b in out && b.addr == u.addr && forall b :: b in l && b !in out ==> b.addr != loose
    ensures Headers(kind[u.addr := u.kind], size[u.addr := u.size], t, HEAD)
  {
    hide Ordered();
    Sane(l, b);
    forall c | c in l && c !in out ensures c.addr != u.addr {
      Apart(l, b, c);
    }
    HeadersExchange(kind, size, kind[u.addr := u.kind], size[u.addr := u.size], l, t, out, {u}, loose);
  }

  /** Field by field, what splitting block `k` writes is the carved arena. */
  lemma SplitHeaders(kind: map<Addr, Kind>, size: map<Addr, nat>, a: Arena, k: nat, m: nat, need: nat)
    requires Good(a) && Headers(kind, size, a.layout, HEAD)
    requires Carvable(a, k, m, need) && a.layout[k].size >= need + SMALLEST
    ensures var b := a.layout[k]; var nfp := b.addr + need;
      && b.kind.Vacant? && b.addr != HEAD && nfp != HEAD && nfp != b.addr && nfp !in Addrs(a.layout) && nfp !in a.frees
      && Headers(kind[nfp := Vacant][b.addr := Used], size[nfp := b.size - need][b.addr := need],
        Carve(a, k, m, need).layout, HEAD)
  {
    hide Headers(), FreeMatch(), Coalesced(), Ordered(), Splice(), Distinct(), Exchange();
    var l, b := a.layout, a.layout[k];
    var nfp := b.addr + need;
    var u, f := Block(b.addr, need, Used), Block(nfp, b.size - need, Vacant);
    FreeEntry(a, b, m);
    Sane(l, b);
    InsideBlock(a, b, nfp);
    ReplaceByTwo(l, k, u, f);
    SplitHeadersAt(kind, size, l, Splice(l, k, k + 1, [u, f]), b, u, f);
  }

  lemma SplitHeadersAt(kind: map<Addr, Kind>, size: map<Addr, nat>, l: seq<Block>, t: seq<Block>, b: Block, u: Block,
      f: Block)
    requires Ordered(l) && Headers(kind, size, l, HEAD) && b in l && Exchange(l, t, {b}, {u, f})
    requires b.addr > HEAD && u.addr == b.addr && u.addr < f.addr && f.addr !in Addrs(l)
    ensures Headers(kind[f.addr := f.kind][u.addr := u.kind], size[f.addr := f.size][u.addr := u.size], t, HEAD)
  {
    var kind', size' := kind[f.addr := f.kind][u.addr := u.kind], size[f.addr := f.size][u.addr := u.size];
    forall c | c in l && c != b ensures c.addr != f.addr && c.addr != u.addr {
      Apart(l, b, c);
      InAddrs(l, c);
    }
    HeadersExchange(kind, size, kind', size', l, t, {b}, {u, f}, HEAD);
  }

  /** Field by field, what taking block `k` whole writes is the carved arena. */
  lemma WholeHeaders(kind: map<Addr, Kind>, size: map<Addr, nat>, a: Arena, k: nat, m: nat, need: nat)
    requires Good(a) && Headers(kind, size, a.layout, HEAD)
    requires Carvable(a, k, m, need) && a.layout[k].size < need + SMALLEST
    ensures Headers(kind[a.layout[k].addr := Used], size, Carve(a, k, m, need).layout, HEAD)
  {
    hide FreeMatch(), Coalesced(), Ordered(), Splice(), Distinct(), Exchange();
    var l, b := a.layout, a.layout[k];
    var u := b.(kind := Used);
    Sane(l, b);
    ReplaceOne(l, k, u);
    FreeAddr(l);
    OneHeader(kind, size, l, Splice(l, k, k + 1, [u]), {b}, b, u, HEAD);
    assert size[u.addr := u.size] == size;
  }

  lemma FreeAddr(l: seq<Block>)
    requires Ordered(l)
    ensures forall b :: b in l ==> b.addr != HEAD
  {
  }

  lemma AddrsCarve(a: Arena, k: nat, m: nat, need: nat)
    requires Good(a) && Carvable(a, k, m, need)
    ensures Distinct(Addrs(a.layout))
    ensures var b := a.layout[k];
      Addrs(Carve(a, k, m, need).layout) ==
      if b.size >= need + SMALLEST then Insert(Addrs(a.layout), k + 1, b.addr + need) else Addrs(a.layout)
  {
    hide FreeMatch(), Coalesced(), Ordered(), Splice(), Distinct(), Addrs, Insert();
    var l, b := a.layout, a.layout[k];
    AddrsDistinct(l);
    OneMore(Addrs(l), k, b.addr + need);
    var u, f := Block(b.addr, need, Used), Block(b.addr + need, b.size - need, Vacant);
    if b.size >= need + SMALLEST {
      AddrsFew(u, f);
      AddrsSplice(l, k, k + 1, [u, f]);
    } else {
      AddrsFew(b.(kind := Used), f);
      AddrsSplice(l, k, k + 1, [b.(kind := Used)]);
    }
  }

  lemma AddrsFew(u: Block, f: Block)
    ensures Addrs([u]) == [u.addr] && Addrs([u, f]) == [u.addr, f.addr]
  {
  }

  lemma OneMore(s: seq<Addr>, k: nat, x: Addr)
    requires k < |s|
    ensures s[..k] + [s[k], x] + s[k + 1..] == Insert(s, k + 1, x)
    ensures s[..k] + [s[k]] + s[k + 1..] == s
  {
  }

  /** Field by field, what joining block `k` to the one before writes. */
  lemma JoinHeaders(kind: map<Addr, Kind>, size: map<Addr, nat>, a: Arena, k: nat)
    requires Good(a) && k < |a.layout| && a.layout[k].kind.Used? && FreeBefore(a.layout, k)
    requires Headers(kind, size, a.layout, a.layout[k].addr)
    ensures Headers(kind, size[a.layout[k - 1].addr := a.layout[k - 1].size + a.layout[k].size], Rejoin(a, k).layout,
              HEAD)
    ensures Addrs(Rejoin(a, k).layout) == Remove(Addrs(a.layout), k) && Distinct(Addrs(a.layout))
  {
    hide FreeMatch(), Coalesced(), Ordered(), Splice(), Distinct(), Exchange(), Addrs;
    var l, p, b := a.layout, a.layout[k - 1], a.layout[k];
    var u := Block(p.addr, p.size + b.size, Vacant);
    AddrsDistinct(l);
    ReplaceTwo(l, k - 1, u);
    Unlooser(l, {p, b}, b);
    OneHeader(kind, size, l, Absorb(l, k - 1), {p, b}, p, u, b.addr);
    Sane(l, p);
    HeaderAt(kind, size, l, k - 1, b.addr);
    Neighbours(l, k);
    Neighbours(l, k - 1);
    assert kind[u.addr := u.kind] == kind;
    AddrsFew(u, u);
    AddrsSplice(l, k - 1, k + 1, [u]);
    OneLess(Addrs(l), k);
  }

  lemma OneLess(s: seq<Addr>, k: nat)
    requires 0 < k < |s|
    ensures s[..k - 1] + [s[k - 1]] + s[k + 1..] == Remove(s, k)
  {
  }

  /** Only block `b` starts where it starts. */
  lemma Unlooser(l: seq<Block>, out: set<Block>, b: Block)
    requires Ordered(l) && b in l && b in out
    ensures forall c :: c in l && c !in out ==> c.addr != b.addr
  {
    forall c | c in l && c !in out ensures c.addr != b.addr {
      Apart(l, b, c);
    }
  }

  /** Field by field, what marking block `k` free writes. */
  lemma MarkHeaders(kind: map<Addr, Kind>, size: map<Addr, nat>, a: Arena, k: nat)
    requires Good(a) && k < |a.layout| && a.layout[k].kind.Used? && !FreeBefore(a.layout, k)
    requires Headers(kind, size, a.layout, a.layout[k].addr)
    ensures Headers(kind[a.layout[k].addr := Vacant], size, Rejoin(a, k).layout, HEAD)
  {
    hide FreeMatch(), Coalesced(), Ordered(), Splice(), Distinct(), Exchange(), Addrs;
    var l, b := a.layout, a.layout[k];
    var u := b.(kind := Vacant);
    ReplaceOne(l, k, u);
    Unlooser(l, {b}, b);
    OneHeader(kind, size, l, Splice(l, k, k + 1, [u]), {b}, b, u, b.addr);
    HeaderAt(kind, size, l, k, b.addr);
    assert size[u.addr := u.size] == size;
  }

  lemma MarkAddrs(a: Arena, k: nat)
    requires Good(a) && k < |a.layout| && a.layout[k].kind.Used? && !FreeBefore(a.layout, k)
    ensures Addrs(Rejoin(a, k).layout) == Addrs(a.layout) && Rejoin(a, k).frees == Insert(a.frees, 0, a.layout[k].addr)
    ensures a.layout[k].addr != HEAD && a.layout[k].addr !in a.frees
  {
    hide FreeMatch(), Coalesced(), Ordered(), Splice(), Distinct(), Addrs;
    var l, b := a.layout, a.layout[k];
    var u := b.(kind := Vacant);
    AddrsFew(u, u);
    AddrsSplice(l, k, k + 1, [u]);
    OneMore(Addrs(l), k, HEAD);
    Sane(l, b);
    NotFree(a, b);
  }

  lemma NotFree(a: Arena, b: Block)
    requires Ordered(a.layout) && FreeMatch(a) && b in a.layout && b.kind.Used?
    ensures b.addr !in a.frees
  {
    if b.addr in a.frees {
      FreeEntry(a, b, Find(a.frees, b.addr));
      assert false;
    }
  }

  lemma SwallowHeaders(kind: map<Addr, Kind>, size: map<Addr, nat>, a: Arena, j: nat)
    requires j < |a.layout| && NearlyGood(a, a.layout[j]) && Headers(kind, size, a.layout, HEAD)
    requires Touching(a.layout, j)
    ensures a.layout[j + 1].addr in a.frees && Distinct(Addrs(a.layout))
    ensures Headers(kind, size[a.layout[j].addr := a.layout[j].size + a.layout[j + 1].size], Swallow(a, j).layout, HEAD)
    ensures Addrs(Swallow(a, j).layout) == Remove(Addrs(a.layout), j + 1)
  {
    hide Coalesced(), Ordered(), Splice(), Distinct(), Exchange(), Addrs;
    var l, b, n := a.layout, a.layout[j], a.layout[j + 1];
    var u := Block(b.addr, b.size + n.size, Vacant);
    assert HasFree(l, n.addr);
    AddrsDistinct(l);
    ReplaceTwo(l, j, u);
    FreeAddr(l);
    OneHeader(kind, size, l, Absorb(l, j), {b, n}, b, u, HEAD);
    HeaderAt(kind, size, l, j, HEAD);
    assert kind[u.addr := u.kind] == kind;
    AddrsFew(u, u);
    AddrsSplice(l, j, j + 2, [u]);
    OneLess(Addrs(l), j + 1);
  }

  /** What the test on the block before tells. */
  lemma BeforeTest(kind: map<Addr, Kind>, size: map<Addr, nat>, l: seq<Block>, k: nat)
    requires Ordered(l) && k < |l| && Headers(kind, size, l, l[k].addr)
    ensures var p := At(Addrs(l), k - 1);
      p in kind && p in size && (kind[p].Vacant? && p + size[p] == l[k].addr <==> FreeBefore(l, k))
  {
    if k > 0 {
      HeaderAt(kind, size, l, k - 1, l[k].addr);
    }
  }

  /** What the test on the block after tells. */
  lemma AfterTest(kind: map<Addr, Kind>, size: map<Addr, nat>, l: seq<Block>, j: nat)
    requires Ordered(l) && j < |l| && Headers(kind, size, l, HEAD) && l[j].kind.Vacant?
    ensures l[j].addr in size && size[l[j].addr] == l[j].size
    ensures var n := At(Addrs(l), j + 1);
      n in kind && n in size && (kind[n].Vacant? && l[j].addr + size[l[j].addr] == n <==> Touching(l, j))
  {
    HeaderAt(kind, size, l, j, HEAD);
    if j + 1 < |l| {
      HeaderAt(kind, size, l, j + 1, HEAD);
    }
  }

  lemma AdmitHeaders(kind: map<Addr, Kind>, size: map<Addr, nat>, a: Arena, k: nat, p: Addr, n: nat)
    requires Ordered(a.layout) && Fits(a.layout, k, p, n)
    requires Headers(kind, size, a.layout, HEAD)
    ensures p != HEAD
    ensures Headers(kind[p := Vacant], size[p := n], Admit(a, k, p, n).layout, p)
    ensures Addrs(Admit(a, k, p, n).layout) == Insert(Addrs(a.layout), k, p)
    ensures |Admit(a, k, p, n).layout| == |a.layout| + 1 && Admit(a, k, p, n).layout[k] == Block(p, n, Used)
    ensures Admit(a, k, p, n).frees == a.frees
    ensures p !in Addrs(a.layout)
  {
    hide FreeMatch(), Coalesced(), Ordered(), Splice(), Distinct(), Addrs;
    var l, u := a.layout, Block(p, n, Used);
    FitsNew(l, k, p, n);
    SpliceMembers(l, k, k, [u]);
    assert l[k..k] == [];
    forall b | b in l ensures b.addr != p && b.addr != HEAD {
      Sane(l, b);
    }
    forall i | 0 <= i < |l| ensures Addrs(l)[i] != p {
      assert l[i] in l;
    }
    AddrsFew(u, u);
    AddrsSplice(l, k, k, [u]);
    Spliced(l, k, k, [u]);
  }

  /** Where the backward search stops is where the new block belongs. */
  lemma SearchEnd(l: seq<Block>, i: int, p: Addr, n: nat)
    requires Ordered(l) && -1 <= i < |l| && p > HEAD && n >= SMALLEST && Clear(l, p, n)
    requires i >= 0 ==> l[i].addr < p
    requires forall j :: i < j < |l| ==> l[j].addr >= p
    ensures Fits(l, i + 1, p, n)
  {
    assert i >= 0 ==> l[i] in l;
    assert i + 1 < |l| ==> l[i + 1] in l && l[i + 1].size >= SMALLEST;
  }

  /** No block lies in the `n` bytes from `p`. */
  predicate Clear(l: seq<Block>, p: Addr, n: nat) {
    forall b :: b in l ==> b.End() <= p || p + n <= b.addr
  }

  /** That is, no byte of a block is one of them; blocks may adjoin. */
  lemma ClearExactly(l: seq<Block>, p: Addr, n: nat)
    requires n > 0 && forall b :: b in l ==> b.size > 0
    ensures Clear(l, p, n) <==> forall b, x :: b in l && Inside(x, b.addr, b.size) ==> !Inside(x, p, n)
  {
    if forall b, x :: b in l && Inside(x, b.addr, b.size) ==> !Inside(x, p, n) {
      forall b | b in l ensures b.End() <= p || p + n <= b.addr {
        var x := if b.addr < p then p else b.addr;
        assert Inside(x, b.addr, b.size) ==> !Inside(x, p, n);
      }
    }
  }

  lemma InAddrs(l: seq<Block>, b: Block)
    requires b in l
    ensures b.addr in Addrs(l)
  {
    var i :| 0 <= i < |l| && l[i] == b;
    assert Addrs(l)[i] == b.addr;
  }

  class Heap {
    var kind: map<Addr, Kind>
    var size: map<Addr, nat>
    var next: map<Addr, Addr>
    var prev: map<Addr, Addr>
    var nextFree: map<Addr, Addr>
    var prevFree: map<Addr, Addr>
    ghost var arena: Arena
    ghost var pool: iset<Addr>
    ghost var added: nat

    ghost predicate Stored(loose: Addr)
      reads this`kind, this`size, this`next, this`prev, this`nextFree, this`prevFree, this`arena
    {
      Stores(kind, size, next, prev, nextFree, prevFree, arena, loose)
    }

    /** The headers hold a good arena, its blocks cover exactly the memory added, and no byte is lost. */
    ghost predicate Valid()
      reads this
    {
      && Stored(HEAD) && Good(arena)
      && (forall x :: x in pool <==> Covered(arena.layout, x))
      && Bytes(arena.layout, Used) + Bytes(arena.layout, Vacant) == added
    }

    constructor ()
      ensures Valid() && arena == Arena([], []) && pool == iset{} && added == 0
    {
      kind, size := map[HEAD := Head], map[HEAD := 0];
      next, prev := map[HEAD := HEAD], map[HEAD := HEAD];
      nextFree, prevFree := map[HEAD := HEAD], map[HEAD := HEAD];
      arena, pool, added := Arena([], []), iset{}, 0;
    }

    method RemoveFromMainChain(ah: Addr, ghost s: seq<Addr>, ghost k: nat)
      requires Ring(next, prev, s) && Distinct(s) && k < |s| && s[k] == ah
      modifies this`next, this`prev
      ensures Ring(next, prev, Remove(s, k))
    {
      hide Ring(), Distinct();
      Links(next, prev, s);
      RingRemove(next, prev, s, k);
      var ap, an := prev[ah], next[ah];
      next := next[ap := an];
      prev := prev[an := ap];
    }

    method RemoveFromFreeChain(ah: Addr, ghost k: nat)
      requires Ring(nextFree, prevFree, arena.frees) && Distinct(arena.frees) && k < |arena.frees|
      requires arena.frees[k] == ah
      modifies this`nextFree, this`prevFree
      ensures Ring(nextFree, prevFree, Remove(arena.frees, k))
    {
      hide Ring(), Distinct();
      Links(nextFree, prevFree, arena.frees);
      RingRemove(nextFree, prevFree, arena.frees, k);
      var ap, an := prevFree[ah], nextFree[ah];
      nextFree := nextFree[ap := an];
      prevFree := prevFree[an := ap];
    }

    /** Hands out block `fp`, split if the rest is large enough. */
    method MallocFromBlock(fp: Addr, need: nat, ghost k: nat, ghost m: nat) returns (ptr: Addr)
      requires Valid() && Carvable(arena, k, m, need) && arena.layout[k].addr == fp
      modifies this`kind, this`size, this`next, this`prev, this`nextFree, this`prevFree, this`arena
      ensures Valid() && arena == Carve(old(arena), k, m, need) && ptr == fp + HEADER
    {
      hide Headers(), Ring(), Good(), Carve(), Bytes, Covered();
      HeaderAt(kind, size, arena.layout, k, HEAD);
      CarveLaw(arena, k, m, need);
      var fsize := size[fp];
      if fsize >= need + 2 * HEADER {
        Split(fp, fsize, need, k, m);
      } else {
        TakeWhole(fp, need, k, m);
      }
      arena := Carve(arena, k, m, need);
      return fp + HEADER;
    }

    method Split(fp: Addr, fsize: nat, need: nat, ghost k: nat, ghost m: nat)
      requires Stored(HEAD) && Good(arena) && Carvable(arena, k, m, need) && arena.layout[k].addr == fp
      requires fsize == arena.layout[k].size && fsize >= need + SMALLEST
      modifies this`kind, this`size, this`next, this`prev, this`nextFree, this`prevFree
      ensures Stores(kind, size, next, prev, nextFree, prevFree, Carve(arena, k, m, need), HEAD)
    {
      hide Headers(), Ring(), FreeMatch(), Ordered(), Coalesced(), Splice(), Distinct(), Addrs, Insert();
      SplitHeaders(kind, size, arena, k, m, need);
      AddrsCarve(arena, k, m, need);
      var nfp := fp + need;
      kind, size := kind[nfp := Vacant], size[nfp := fsize - need];
      kind, size := kind[fp := Used], size[fp := need];
      LinkAfter(fp, nfp, Addrs(arena.layout), k);
      ReplaceFree(fp, nfp, m);
    }

    /** Inserts `a` into the list of all blocks, after `pa`. */
    method LinkAfter(pa: Addr, a: Addr, ghost s: seq<Addr>, ghost k: int)
      requires Ring(next, prev, s) && Distinct(s) && -1 <= k < |s| && At(s, k) == pa && a != HEAD && a !in s
      modifies this`next, this`prev
      ensures Ring(next, prev, Insert(s, k + 1, a)) && Distinct(Insert(s, k + 1, a))
    {
      hide Ring(), Distinct(), Insert();
      Links(next, prev, s);
      RingInsert(next, prev, s, k + 1, a);
      var na := next[pa];
      prev, next := prev[a := pa], next[a := na];
      prev, next := prev[na := a], next[pa := a];
    }

    /** Puts `a` in the place of `fp` on the free list. */
    method ReplaceFree(fp: Addr, a: Addr, ghost m: nat)
      requires Ring(nextFree, prevFree, arena.frees) && Distinct(arena.frees) && m < |arena.frees|
      requires arena.frees[m] == fp
      requires a != HEAD && a !in arena.frees
      modifies this`nextFree, this`prevFree
      ensures Ring(nextFree, prevFree, arena.frees[m := a])
    {
      hide Ring(), Distinct();
      Links(nextFree, prevFree, arena.frees);
      RingReplace(nextFree, prevFree, arena.frees, m, a);
      var fpn, fpp := nextFree[fp], prevFree[fp];
      nextFree, prevFree := nextFree[a := fpn], prevFree[a := fpp];
      prevFree, nextFree := prevFree[fpn := a], nextFree[fpp := a];
    }

    method TakeWhole(fp: Addr, need: nat, ghost k: nat, ghost m: nat)
      requires Stored(HEAD) && Good(arena) && Carvable(arena, k, m, need) && arena.layout[k].addr == fp
      requires arena.layout[k].size < need + SMALLEST
      modifies this`kind, this`nextFree, this`prevFree
      ensures Stores(kind, size, next, prev, nextFree, prevFree, Carve(arena, k, m, need), HEAD)
    {
      hide Headers(), Ring(), FreeMatch(), Ordered(), Coalesced(), Splice(), Distinct();
      WholeHeaders(kind, size, arena, k, m, need);
      AddrsCarve(arena, k, m, need);
      kind := kind[fp := Used];
      RemoveFromFreeChain(fp, m);
    }

    /** Gives back block `k`, whose header may already be marked free. */
    method FreeBlock(block: Addr, ghost k: nat) returns (ah: Addr)
      requires Stored(block) && Good(arena) && k < |arena.layout| && arena.layout[k].addr == block
      requires arena.layout[k].kind.Used?
      modifies this`kind, this`size, this`next, this`prev, this`nextFree, this`prevFree, this`arena
      ensures Stored(HEAD) && Good(arena) && arena == Release(old(arena), k)
      ensures Gave(old(arena.layout), arena.layout, old(arena.layout[k]))
    {
      hide Headers(), Ring(), Good(), Rejoin(), Swallow(), Gave(), NearlyGood(), Addrs, Ordered();
      ah := block;
      ReleaseLaw(arena, k);
      GoodOrdered(arena);
      Links(next, prev, Addrs(arena.layout));
      BeforeTest(kind, size, arena.layout, k);
      var pah, nah := prev[ah], next[ah];
      ghost var j := Rejoined(arena.layout, k);
      if kind[pah].Vacant? && pah + size[pah] == ah {
        JoinBack(ah, pah, nah, k);
        ah := pah;
      } else {
        Mark(ah, k);
      }
      arena := Rejoin(arena, k);
      SwallowNext(ah, nah, j);
      arena := Swallow(arena, j);
    }

    /** Joins block `k` to the free block before it. */
    method JoinBack(ah: Addr, pah: Addr, nah: Addr, ghost k: nat)
      requires Stored(ah) && Good(arena) && k < |arena.layout| && arena.layout[k].addr == ah
      requires arena.layout[k].kind.Used?
      requires FreeBefore(arena.layout, k) && pah == arena.layout[k - 1].addr && nah == At(Addrs(arena.layout), k + 1)
      modifies this`size, this`next, this`prev
      ensures Stores(kind, size, next, prev, nextFree, prevFree, Rejoin(arena, k), HEAD)
      ensures Rejoin(arena, k).layout[k - 1].addr == pah && At(Addrs(Rejoin(arena, k).layout), k) == nah
    {
      hide Headers(), Ring(), Good(), Addrs, Splice(), Distinct();
      ghost var s := Addrs(arena.layout);
      JoinHeaders(kind, size, arena, k);
      HeaderAt(kind, size, arena.layout, k - 1, ah);
      HeaderAt(kind, size, arena.layout, k, ah);
      RingRemove(next, prev, s, k);
      size := size[pah := size[pah] + size[ah]];
      next := next[pah := nah];
      prev := prev[nah := pah];
    }

    /** Marks block `k` free and puts it at the front of the free list. */
    method Mark(ah: Addr, ghost k: nat)
      requires Stored(ah) && Good(arena) && k < |arena.layout| && arena.layout[k].addr == ah
      requires arena.layout[k].kind.Used?
      requires !FreeBefore(arena.layout, k)
      modifies this`kind, this`nextFree, this`prevFree
      ensures Stores(kind, size, next, prev, nextFree, prevFree, Rejoin(arena, k), HEAD)
      ensures Rejoin(arena, k).layout[k].addr == ah && Addrs(Rejoin(arena, k).layout) == Addrs(arena.layout)
    {
      hide Headers(), Ring(), Addrs, Distinct(), FreeMatch(), Coalesced(), Ordered();
      MarkHeaders(kind, size, arena, k);
      MarkAddrs(arena, k);
      kind := kind[ah := Vacant];
      Links(nextFree, prevFree, arena.frees);
      RingInsert(nextFree, prevFree, arena.frees, 0, ah);
      nextFree := nextFree[ah := nextFree[HEAD]];
      prevFree := prevFree[ah := HEAD];
      nextFree := nextFree[HEAD := ah];
      prevFree := prevFree[nextFree[ah] := ah];
    }

    /** Swallows the block after block `j` if that is free and adjoins. */
    method SwallowNext(ah: Addr, nah: Addr, ghost j: nat)
      requires Stored(HEAD) && j < |arena.layout| && NearlyGood(arena, arena.layout[j]) && arena.layout[j].addr == ah
      requires nah == At(Addrs(arena.layout), j + 1)
      modifies this`size, this`next, this`prev, this`nextFree, this`prevFree
      ensures Stores(kind, size, next, prev, nextFree, prevFree, Swallow(arena, j), HEAD)
    {
      hide Headers(), Ring(), Addrs, Distinct(), FreeMatch(), Ordered(), Coalesced(), NearlyCoalesced(), Splice();
      AfterTest(kind, size, arena.layout, j);
      if kind[nah].Vacant? && ah + size[ah] == nah {
        SwallowHeaders(kind, size, arena, j);
        HeaderAt(kind, size, arena.layout, j + 1, HEAD);
        size := size[ah := size[ah] + size[nah]];
        ghost var m := Find(arena.frees, nah);
        RemoveFromFreeChain(nah, m);
        RemoveFromMainChain(nah, Addrs(arena.layout), j + 1);
      }
    }

    /** Adds `n` bytes at `p`, rounded down to whole chunks. */
    method MallocAdd(p: Addr, n: nat)
      requires Valid() && p > HEAD && n >= CHUNK && Clear(arena.layout, p, WholeChunks(n))
      modifies this
      ensures Valid() && added == old(added) + WholeChunks(n)
      ensures pool == old(pool) + Region(p, WholeChunks(n))
      ensures exists grown ::
                && grown % 512 == 0 && grown <= n < grown + 512 && added == old(added) + grown
                && (forall x :: x in pool <==> x in old(pool) || p <= x < p + grown)
      ensures Live(arena.layout) == Live(old(arena.layout))
    {
      hide Headers(), Ring(), Bytes, Good(), Addrs, Covered(), Clear(), Admit(), Insert(), Distinct(), Release(),
           Gave(), Region(), At(), Fits();
      GoodOrdered(arena);
      ghost var s := Addrs(arena.layout);
      AddrsDistinct(arena.layout);
      Links(next, prev, s);
      ChunksTell(pool, p, n);
      var r := n / CHUNK * CHUNK;
      var pah, i := Predecessor(p, r);
      AdmitHeaders(kind, size, arena, i + 1, p, r);
      AdmitGood(arena, i + 1, p, r);
      ghost var a := arena;
      kind, size := kind[p := Vacant], size[p := r];
      LinkAfter(pah, p, s, i);
      arena := Admit(arena, i + 1, p, r);
      var fp := FreeBlock(p, i + 1);
      AdmitGrows(a, arena, i + 1, p, r, pool);
      pool := pool + Region(p, r);
      added := added + r;
    }

    /** Walks back from the last block to the first block below `p`, or the head. */
    method Predecessor(p: Addr, ghost n: nat) returns (pah: Addr, ghost i: int)
      requires Valid() && p > HEAD && n >= SMALLEST && Clear(arena.layout, p, n)
      ensures -1 <= i < |arena.layout| && pah == At(Addrs(arena.layout), i) && Fits(arena.layout, i + 1, p, n)
    {
      hide Headers(), Ring(), Bytes, Good(), Addrs, Covered(), Clear(), At();
      GoodOrdered(arena);
      ghost var s := Addrs(arena.layout);
      LinkAt(next, prev, s, |s|);
      pah, i := prev[HEAD], |arena.layout| - 1;
      KindAt(kind, size, arena.layout, i);
      while !kind[pah].Head?
        invariant -1 <= i < |arena.layout| && pah == At(s, i) && pah in kind
        invariant kind[pah].Head? <==> i == -1
        invariant i >= 0 ==> pah == arena.layout[i].addr
        invariant forall j :: i < j < |arena.layout| ==> arena.layout[j].addr >= p
        decreases i
      {
        if pah < p {
          break;
        }
        LinkAt(next, prev, s, i);
        pah, i := prev[pah], i - 1;
        KindAt(kind, size, arena.layout, i);
      }
      SearchEnd(arena.layout, i, p, n);
    }

    /** First fit along the free list. */
    method Malloc(request: nat) returns (ptr: Addr)
      requires Valid()
      modifies this`kind, this`size, this`next, this`prev, this`nextFree, this`prevFree, this`arena
      ensures Valid()
      ensures if request > 0 && HasRoom(old(arena.layout), request)
              then Allocated(old(arena), arena, ptr, request)
              else ptr == NULL && arena == old(arena)
    {
      hide Headers(), Ring(), Good(), Bytes, Covered(), Addrs, Allocated(), FirstFit(), CanServe(), Carve();
      if request == 0 {
        return NULL;
      }
      var need := (request + 2 * HEADER - 1) / HEADER * HEADER;
      RoundedUp(request, need);
      RoomNeeds(arena.layout, request, need);
      var fp, k, m := Search(need);
      if fp == NULL {
        return NULL;
      }
      ghost var was := arena;
      AllocatedByCarve(was, k, m, request, need);
      ptr := MallocFromBlock(fp, need, k, m);
    }

    /** Walks the free list to the first block of at least `need` bytes. */
    method Search(need: nat) returns (fp: Addr, ghost k: nat, ghost m: nat)
      requires Valid() && need >= SMALLEST
      ensures fp == NULL ==> !CanServe(arena.layout, need)
      ensures fp != NULL ==> FirstFit(arena, k, m, need) && fp == arena.layout[k].addr && arena.layout[k].kind.Vacant?
    {
      hide Headers(), Ring(), Good(), Bytes, Covered(), Addrs, At(), FirstFit();
      LinkAt(nextFree, prevFree, arena.frees, -1);
      fp, k, m := nextFree[HEAD], 0, 0;
      ListKind(kind, size, arena, m);
      while !kind[fp].Head?
        invariant 0 <= m <= |arena.frees| && fp == At(arena.frees, m) && fp in kind
        invariant kind[fp].Head? <==> m == |arena.frees|
        invariant SmallBefore(arena, m, need)
        decreases |arena.frees| - m
      {
        ListKind(kind, size, arena, m);
        k := FreeIndex(arena, m);
        if size[fp] >= need {
          FirstFitFound(arena, k, m, need);
          return;
        }
        SmallNext(arena, k, m, need);
        LinkAt(nextFree, prevFree, arena.frees, m);
        fp, m := nextFree[fp], m + 1;
        ListKind(kind, size, arena, m);
      }
      NoneFits(arena, need);
      return NULL, k, m;
    }

    /** Gives back what `Malloc` handed out at `ptr`. */
    method Free(ptr: Addr)
      requires Valid()
      requires ptr == NULL || exists b :: b in Live(arena.layout) && b.addr + HEADER == ptr
      modifies this`kind, this`size, this`next, this`prev, this`nextFree, this`prevFree, this`arena
      ensures Valid()
      ensures ptr == NULL ==> arena == old(arena)
      ensures ptr != NULL ==> exists b: Block :: b.addr + HEADER == ptr && Gave(old(arena.layout), arena.layout, b)
    {
      hide Headers(), Ring(), Good(), Bytes, Covered(), Addrs, Release();
      if ptr == NULL {
        return;
      }
      GoodOrdered(arena);
      ghost var b :| b in Live(arena.layout) && b.addr + HEADER == ptr;
      ghost var k :| 0 <= k < |arena.layout| && arena.layout[k] == b;
      Loosen(kind, size, arena.layout, b.addr);
      var ah := FreeBlock(ptr - HEADER, k);
    }

    /** Adds up the free list. */
    method AvailMem() returns (result: nat)
      requires Valid()
      ensures result == Bytes(arena.layout, Vacant) && result + Bytes(arena.layout, Used) == added
    {
      hide Headers(), Ring(), Good(), Bytes, Covered(), Addrs, Total(), At();
      result := 0;
      LinkAt(nextFree, prevFree, arena.frees, -1);
      FreeSizes(kind, size, arena);
      var h := nextFree[HEAD];
      ghost var m := 0;
      ListKind(kind, size, arena, m);
      assert arena.frees[..0] == [];
      TotalNone(size);
      while kind[h].Vacant?
        invariant 0 <= m <= |arena.frees| && h == At(arena.frees, m) && h in kind
        invariant m < |arena.frees| ==> kind[h].Vacant?
        invariant m == |arena.frees| ==> kind[h].Head?
        invariant result == Total(size, arena.frees[..m])
        decreases |arena.frees| - m
      {
        ListKind(kind, size, arena, m);
        result := result + size[h];
        assert arena.frees[..m + 1] == arena.frees[..m] + [h];
        TotalPush(size, arena.frees[..m], h);
        LinkAt(nextFree, prevFree, arena.frees, m);
        h, m := nextFree[h], m + 1;
        ListKind(kind, size, arena, m);
      }
      assert arena.frees[..m] == arena.frees;
    }
  }

  /** Every entry of the free list before `m` is too small. */
  ghost predicate SmallBefore(a: Arena, m: int, need: nat) {
    forall i, b :: 0 <= i < m && i < |a.frees| && b in a.layout && b.addr == a.frees[i] ==> b.size < need
  }

  /** Some free block is large enough. */
  predicate CanServe(l: seq<Block>, need: nat) {
    exists b :: b in l && b.kind.Vacant? && b.size >= need
  }

  /** The first block of the free list that is large enough was carved, and `ptr` lies behind its header. */
  ghost predicate Allocated(a: Arena, t: Arena, ptr: Addr, request: nat) {
    && Granted(a.layout, t.layout, ptr, request)
    && exists k: nat, m: nat, need: nat ::
      Suits(need, request) && FirstFit(a, k, m, need) && t == Carve(a, k, m, need) && ptr == a.layout[k].addr + HEADER
  }

  /** Entry `m` of the free list is the first that is large enough; it is block `k`. */
  ghost predicate FirstFit(a: Arena, k: nat, m: nat, need: nat) {
    Carvable(a, k, m, need) && SmallBefore(a, m, need)
  }

  /** The caller has, behind `ptr`, a block of its own with room for the request, and not much more. */
  ghost predicate Granted(l: seq<Block>, t: seq<Block>, ptr: Addr, request: nat) {
    exists b: Block ::
      b.kind.Used? && b.addr + 16 == ptr && request + 16 <= b.size < request + 64 && Took(l, t, b)
  }

  /** Memory added at `p` and given back: the pool grows by it, free bytes too, and no block in use is touched. */
  lemma AdmitGrows(a: Arena, t: Arena, k: nat, p: Addr, n: nat, pool: iset<Addr>)
    requires Good(a) && Fits(a.layout, k, p, n) && forall x :: x in pool <==> Covered(a.layout, x)
    requires Gave(Admit(a, k, p, n).layout, t.layout, Block(p, n, Used))
    ensures forall x :: x in pool + Region(p, n) <==> Covered(t.layout, x)
    ensures Live(t.layout) == Live(a.layout)
    ensures Bytes(t.layout, Used) == Bytes(a.layout, Used) && Bytes(t.layout, Vacant) == Bytes(a.layout, Vacant) + n
  {
    hide Good(), Bytes, Covered(), Fits();
    AdmitLaw(a, k, p, n);
  }

  lemma AdmitGood(a: Arena, k: nat, p: Addr, n: nat)
    requires Good(a) && Fits(a.layout, k, p, n)
    ensures Good(Admit(a, k, p, n))
  {
    hide *;
    AdmitLaw(a, k, p, n);
  }

  lemma GoodOrdered(a: Arena)
    requires Good(a)
    ensures Ordered(a.layout)
  {
  }

  lemma KindAt(kind: map<Addr, Kind>, size: map<Addr, nat>, l: seq<Block>, i: int)
    requires Ordered(l) && Headers(kind, size, l, HEAD) && -1 <= i < |l|
    ensures At(Addrs(l), i) in kind && (kind[At(Addrs(l), i)].Head? <==> i == -1)
    ensures i >= 0 ==> At(Addrs(l), i) == l[i].addr
  {
    if i >= 0 {
      HeaderAt(kind, size, l, i, HEAD);
    }
  }

  /** The block of entry `m` of the free list. */
  ghost function FreeIndex(a: Arena, m: nat): (k: nat)
    requires Good(a) && m < |a.frees|
    ensures k < |a.layout| && a.layout[k].addr == a.frees[m] && a.layout[k].kind.Vacant?
  {
    assert a.frees[m] in a.frees <==> HasFree(a.layout, a.frees[m]);
    var b :| b in a.layout && b.addr == a.frees[m] && b.kind.Vacant?;
    var k :| 0 <= k < |a.layout| && a.layout[k] == b;
    k
  }

  lemma ListKind(kind: map<Addr, Kind>, size: map<Addr, nat>, a: Arena, m: nat)
    requires Good(a) && Headers(kind, size, a.layout, HEAD) && m <= |a.frees|
    ensures At(a.frees, m) in kind && At(a.frees, m) in size && (kind[At(a.frees, m)].Head? <==> m == |a.frees|)
    ensures m < |a.frees| ==> At(a.frees, m) == a.layout[FreeIndex(a, m)].addr != HEAD && kind[At(a.frees, m)].Vacant?
    ensures m < |a.frees| ==> size[At(a.frees, m)] == a.layout[FreeIndex(a, m)].size
  {
    if m < |a.frees| {
      HeaderAt(kind, size, a.layout, FreeIndex(a, m), HEAD);
      Sane(a.layout, a.layout[FreeIndex(a, m)]);
    }
  }

  lemma RoundedUp(request: nat, need: nat)
    requires need == (request + 2 * HEADER - 1) / HEADER * HEADER
    ensures Suits(need, request) && (request > 0 ==> need >= SMALLEST)
  {
  }

  lemma RoomNeeds(l: seq<Block>, request: nat, need: nat)
    requires Suits(need, request)
    ensures HasRoom(l, request) <==> CanServe(l, need)
  {
    forall other: nat | Suits(other, request) ensures other == need {
    }
  }

  lemma FirstFitFound(a: Arena, k: nat, m: nat, need: nat)
    requires SmallBefore(a, m, need) && need >= SMALLEST
    requires k < |a.layout| && m < |a.frees| && a.layout[k].addr == a.frees[m] && a.layout[k].size >= need
    ensures FirstFit(a, k, m, need)
  {
  }

  lemma SmallNext(a: Arena, k: nat, m: nat, need: nat)
    requires Good(a) && SmallBefore(a, m, need)
    requires k < |a.layout| && m < |a.frees| && a.layout[k].addr == a.frees[m] && a.layout[k].size < need
    ensures SmallBefore(a, m + 1, need)
  {
    forall b | b in a.layout && b.addr == a.frees[m] ensures b.size < need {
      if b != a.layout[k] {
        Apart(a.layout, b, a.layout[k]);
        assert false;
      }
    }
  }

  lemma NoneFits(a: Arena, need: nat)
    requires Good(a) && SmallBefore(a, |a.frees|, need)
    ensures forall b :: b in a.layout && b.kind.Vacant? ==> b.size < need
  {
    forall b | b in a.layout && b.kind.Vacant? ensures b.size < need {
      assert HasFree(a.layout, b.addr);
      var i := Find(a.frees, b.addr);
    }
  }

  lemma AllocatedByCarve(a: Arena, k: nat, m: nat, request: nat, need: nat)
    requires Good(a) && request > 0 && Suits(need, request) && need >= SMALLEST && FirstFit(a, k, m, need)
    ensures Carvable(a, k, m, need) && CanServe(a.layout, need)
    ensures Allocated(a, Carve(a, k, m, need), a.layout[k].addr + HEADER, request)
  {
    hide Bytes, Ordered(), Coalesced(), Covered(), SmallBefore(), Carve();
    GoodOrdered(a);
    FreeEntry(a, a.layout[k], m);
    CarveLaw(a, k, m, need);
    var b := Carved(a.layout[k], need);
    assert b.kind.Used? && Took(a.layout, Carve(a, k, m, need).layout, b);
  }

  /** Any block's mark may be forgotten. */
  lemma Loosen(kind: map<Addr, Kind>, size: map<Addr, nat>, l: seq<Block>, x: Addr)
    requires Ordered(l) && Headers(kind, size, l, HEAD)
    ensures Headers(kind, size, l, x)
  {
    FreeAddr(l);
  }

  lemma FreeSizes(kind: map<Addr, Kind>, size: map<Addr, nat>, a: Arena)
    requires Good(a) && Headers(kind, size, a.layout, HEAD)
    ensures (forall i :: 0 <= i < |a.frees| ==> a.frees[i] in size) && Total(size, a.frees) == Bytes(a.layout, Vacant)
  {
    hide Ordered(), Total(), Bytes;
    FreeTotal(a, size);
  }

  lemma TotalNone(size: map<Addr, nat>)
    ensures Total(size, []) == 0
  {
  }

  lemma HeaderAt(kind: map<Addr, Kind>, size: map<Addr, nat>, l: seq<Block>, k: nat, loose: Addr)
    requires Headers(kind, size, l, loose) && k < |l|
    ensures HEAD in kind && HEAD in size && kind[HEAD].Head?
    ensures l[k].addr in kind && l[k].addr in size && size[l[k].addr] == l[k].size
    ensures l[k].addr != loose ==> kind[l[k].addr] == l[k].kind
  {
  }

  lemma LinkAt(next: map<Addr, Addr>, prev: map<Addr, Addr>, s: seq<Addr>, i: int)
    requires Ring(next, prev, s) && -1 <= i <= |s|
    ensures At(s, i) in next && At(s, i) in prev && At(s, -1) == At(s, |s|) == HEAD
    ensures 0 <= i < |s| ==> At(s, i) == s[i]
    ensures i < |s| ==> next[At(s, i)] == At(s, i + 1)
    ensures i >= 0 ==> prev[At(s, i)] == At(s, i - 1)
  {
  }

  lemma Links(next: map<Addr, Addr>, prev: map<Addr, Addr>, s: seq<Addr>)
    requires Ring(next, prev, s)
    ensures HEAD in next && HEAD in prev
    ensures forall i :: -1 <= i <= |s| ==> At(s, i) in next && At(s, i) in prev
    ensures forall i :: 0 <= i < |s| ==> s[i] in next && s[i] in prev
    ensures forall i :: 0 <= i < |s| ==> next[s[i]] == At(s, i + 1) && prev[s[i]] == At(s, i - 1)
    ensures next[HEAD] == At(s, 0) && prev[HEAD] == At(s, |s| - 1)
  {
    assert forall i :: 0 <= i < |s| ==> s[i] == At(s, i);
    assert next[At(s, -1)] == At(s, 0) && prev[At(s, |s|)] == At(s, |s| - 1);
  }
}
