/** The block list and the free list of the allocator as values, and what linking and unlinking do to
    them. */
module HeapModel {
  import opened Basics

  type Addr = int

  /** Address of the static head node; every block lies above it. */
  const HEAD: Addr := 0

  /** sizeof(struct arena_header); also the unit block sizes are rounded to. */
  const HEADER: nat := 16

  /** A block is split only if the rest can hold a free block's header. */
  const SMALLEST: nat := 32

  datatype Kind = Used | Vacant | Head

  datatype Block = Block(addr: Addr, size: nat, kind: Kind)
  {
    function End(): Addr {
      addr + size
    }
  }

  // ---------------------------------------------------------------- doubly linked rings

  /** Element `i` of a ring; the head stands on both sides. */
  function At(s: seq<Addr>, i: int): Addr {
    if 0 <= i < |s| then s[i] else HEAD
  }

  /** `next` and `prev` thread exactly the elements of `s`, in order, through the head. */
  predicate Ring(next: map<Addr, Addr>, prev: map<Addr, Addr>, s: seq<Addr>) {
    && HEAD in next && HEAD in prev
    && (forall i :: 0 <= i < |s| ==> s[i] in next && s[i] in prev)
    && (forall i :: -1 <= i < |s| ==> next[At(s, i)] == At(s, i + 1))
    && (forall i :: 0 <= i <= |s| ==> prev[At(s, i)] == At(s, i - 1))
  }

  /** No element twice, and none is the head. */
  predicate Distinct(s: seq<Addr>) {
    && (forall i :: 0 <= i < |s| ==> s[i] != HEAD)
    && (forall i, j :: 0 <= i < j < |s| ==> s[i] != s[j])
  }

  function Insert(s: seq<Addr>, k: nat, a: Addr): seq<Addr>
    requires k <= |s|
  {
    s[..k] + [a] + s[k..]
  }

  function Remove(s: seq<Addr>, k: nat): seq<Addr>
    requires k < |s|
  {
    s[..k] + s[k + 1..]
  }

  lemma RingInsert(next: map<Addr, Addr>, prev: map<Addr, Addr>, s: seq<Addr>, k: nat, a: Addr)
    requires Ring(next, prev, s) && Distinct(s) && k <= |s| && a != HEAD && a !in s
    ensures Distinct(Insert(s, k, a))
    ensures Ring(next[a := At(s, k)][At(s, k - 1) := a], prev[a := At(s, k - 1)][At(s, k) := a], Insert(s, k, a))
  {
    var t := Insert(s, k, a);
    assert forall i :: 0 <= i < k ==> t[i] == s[i];
    assert forall i :: k < i < |t| ==> t[i] == s[i - 1];
    assert t[k] == a;
    var n, p := next[a := At(s, k)][At(s, k - 1) := a], prev[a := At(s, k - 1)][At(s, k) := a];
    forall i | -1 <= i < |t| ensures n[At(t, i)] == At(t, i + 1) {
      if i < k - 1 {
        assert next[At(s, i)] == At(s, i + 1);
      } else if i > k {
        assert next[At(s, i - 1)] == At(s, i);
      }
    }
    forall i | 0 <= i <= |t| ensures p[At(t, i)] == At(t, i - 1) {
      if i < k {
        assert prev[At(s, i)] == At(s, i - 1);
      } else if i > k + 1 {
        assert prev[At(s, i - 1)] == At(s, i - 2);
      }
    }
  }

  lemma RingRemove(next: map<Addr, Addr>, prev: map<Addr, Addr>, s: seq<Addr>, k: nat)
    requires Ring(next, prev, s) && Distinct(s) && k < |s|
    ensures Distinct(Remove(s, k)) && s[k] !in Remove(s, k)
    ensures next[s[k]] == At(s, k + 1) && prev[s[k]] == At(s, k - 1)
    ensures Ring(next[At(s, k - 1) := At(s, k + 1)], prev[At(s, k + 1) := At(s, k - 1)], Remove(s, k))
  {
    var t := Remove(s, k);
    assert next[At(s, k)] == At(s, k + 1) && prev[At(s, k)] == At(s, k - 1);
    var n, p := next[At(s, k - 1) := At(s, k + 1)], prev[At(s, k + 1) := At(s, k - 1)];
    forall i | -1 <= i < |t| ensures n[At(t, i)] == At(t, i + 1) {
      if i < k - 1 {
        assert next[At(s, i)] == At(s, i + 1);
      } else if i >= k {
        assert next[At(s, i + 1)] == At(s, i + 2);
      }
    }
    forall i | 0 <= i <= |t| ensures p[At(t, i)] == At(t, i - 1) {
      if i < k {
        assert prev[At(s, i)] == At(s, i - 1);
      } else if i > k {
        assert prev[At(s, i + 1)] == At(s, i);
      }
    }
  }

  /** Putting another element in the place of one. */
  lemma RingReplace(next: map<Addr, Addr>, prev: map<Addr, Addr>, s: seq<Addr>, k: nat, a: Addr)
    requires Ring(next, prev, s) && Distinct(s) && k < |s| && a != HEAD && a !in s
    ensures next[s[k]] == At(s, k + 1) && prev[s[k]] == At(s, k - 1)
    ensures Distinct(s[k := a])
    ensures Ring(next[a := At(s, k + 1)][At(s, k - 1) := a], prev[a := At(s, k - 1)][At(s, k + 1) := a], s[k := a])
  {
    var t := s[k := a];
    assert next[At(s, k)] == At(s, k + 1) && prev[At(s, k)] == At(s, k - 1);
    var n, p := next[a := At(s, k + 1)][At(s, k - 1) := a], prev[a := At(s, k - 1)][At(s, k + 1) := a];
    forall i | -1 <= i < |t| ensures n[At(t, i)] == At(t, i + 1) {
      assert next[At(s, i)] == At(s, i + 1);
    }
    forall i | 0 <= i <= |t| ensures p[At(t, i)] == At(t, i - 1) {
      assert prev[At(s, i)] == At(s, i - 1);
    }
  }

  // ---------------------------------------------------------------- arenas

  /** All blocks by address, and the free ones in free-list order. */
  datatype Arena = Arena(layout: seq<Block>, frees: seq<Addr>)

  /** Blocks lie in address order, apart from each other, and can hold a free header. */
  predicate Ordered(l: seq<Block>) {
    && (forall i :: 0 <= i < |l| ==> l[i].addr > HEAD && l[i].size >= SMALLEST && !l[i].kind.Head?)
    && (forall i, j :: 0 <= i < j < |l| ==> l[i].End() <= l[j].addr)
  }

  /** Block `i` and its successor are free and adjoin. */
  predicate Touching(l: seq<Block>, i: int) {
    0 <= i && i + 1 < |l| && l[i].kind.Vacant? && l[i + 1].kind.Vacant? && l[i].End() == l[i + 1].addr
  }

  /** No two free blocks adjoin. */
  predicate Coalesced(l: seq<Block>) {
    forall b, c :: b in l && c in l && b.kind.Vacant? && c.kind.Vacant? ==> b.End() != c.addr
  }

  /** A free block starts at `x`. */
  predicate HasFree(l: seq<Block>, x: Addr) {
    exists b :: b in l && b.addr == x && b.kind.Vacant?
  }

  /** The free list holds exactly the free blocks. */
  ghost predicate FreeMatch(a: Arena) {
    forall x :: x in a.frees <==> HasFree(a.layout, x)
  }

  ghost predicate Good(a: Arena) {
    Ordered(a.layout) && Coalesced(a.layout) && FreeMatch(a) && Distinct(a.frees)
  }

  /** Bytes in blocks of one kind. */
  function Bytes(l: seq<Block>, kind: Kind): nat {
    if l == [] then 0 else Bytes(l[..|l| - 1], kind) + if l[|l| - 1].kind == kind then l[|l| - 1].size else 0
  }

  function Addrs(l: seq<Block>): (s: seq<Addr>)
    ensures |s| == |l| && forall i :: 0 <= i < |l| ==> s[i] == l[i].addr
  {
    if l == [] then [] else Addrs(l[..|l| - 1]) + [l[|l| - 1].addr]
  }

  /** The blocks that are in use. */
  function Live(l: seq<Block>): set<Block> {
    set b | b in l && b.kind.Used?
  }

  /** Some block holds the byte at `x`. */
  predicate Covered(l: seq<Block>, x: Addr) {
    exists b :: b in l && b.addr <= x < b.End()
  }

  /** The same bytes belong to the heap. */
  ghost predicate SameCover(l: seq<Block>, t: seq<Block>) {
    forall x :: Covered(l, x) <==> Covered(t, x)
  }

  // ---------------------------------------------------------------- taking and giving back

  /** Block `k`, entry `m` of the free list, gives up its first `need` bytes. */
  function Carve(a: Arena, k: nat, m: nat, need: nat): Arena
    requires k < |a.layout| && m < |a.frees| && a.layout[k].size >= need
  {
    var b := a.layout[k];
    if b.size >= need + SMALLEST then
      Arena(Splice(a.layout, k, k + 1, [Block(b.addr, need, Used), Block(b.addr + need, b.size - need, Vacant)]),
            a.frees[m := b.addr + need])
    else
      Arena(Splice(a.layout, k, k + 1, [b.(kind := Used)]), Remove(a.frees, m))
  }

  /** Blocks `i` and `i + 1` become one free block. */
  function Absorb(l: seq<Block>, i: nat): seq<Block>
    requires i + 1 < |l|
  {
    Splice(l, i, i + 2, [Block(l[i].addr, l[i].size + l[i + 1].size, Vacant)])
  }

  predicate FreeBefore(l: seq<Block>, k: nat)
    requires k < |l|
  {
    k > 0 && l[k - 1].kind.Vacant? && l[k - 1].End() == l[k].addr
  }

  /** First half of giving block `k` back: into the free block before it, or onto the free list. */
  function Rejoin(a: Arena, k: nat): Arena
    requires k < |a.layout|
  {
    if FreeBefore(a.layout, k) then Arena(Absorb(a.layout, k - 1), a.frees)
    else Arena(Splice(a.layout, k, k + 1, [a.layout[k].(kind := Vacant)]), [a.layout[k].addr] + a.frees)
  }

  /** Where the block is after the first half. */
  function Rejoined(l: seq<Block>, k: nat): nat
    requires k < |l|
  {
    if FreeBefore(l, k) then k - 1 else k
  }

  /** Second half: swallow a free block that follows block `j`. */
  function Swallow(a: Arena, j: nat): Arena {
    if Touching(a.layout, j) && a.layout[j + 1].addr in a.frees then
      Arena(Absorb(a.layout, j), Remove(a.frees, Find(a.frees, a.layout[j + 1].addr)))
    else a
  }

  function Release(a: Arena, k: nat): Arena
    requires k < |a.layout|
  {
    Swallow(Rejoin(a, k), Rejoined(a.layout, k))
  }

  /** A new block at `k`, not yet on the free list. */
  function Admit(a: Arena, k: nat, p: Addr, n: nat): Arena
    requires k <= |a.layout|
  {
    Arena(Splice(a.layout, k, k, [Block(p, n, Used)]), a.frees)
  }

  // ---------------------------------------------------------------- splices

  /** `l[i..j]` is replaced by `mid`. */
  function Splice(l: seq<Block>, i: nat, j: nat, mid: seq<Block>): (t: seq<Block>)
    requires i <= j <= |l|
    ensures |t| == |l| - (j - i) + |mid|
  {
    l[..i] + mid + l[j..]
  }

  lemma {:induction false} BytesJoin(l: seq<Block>, t: seq<Block>, kind: Kind)
    ensures Bytes(l + t, kind) == Bytes(l, kind) + Bytes(t, kind)
  {
    if t == [] {
      assert l + t == l;
    } else {
      assert (l + t)[..|l + t| - 1] == l + t[..|t| - 1];
      BytesJoin(l, t[..|t| - 1], kind);
    }
  }

  lemma BytesSplice(l: seq<Block>, i: nat, j: nat, mid: seq<Block>, kind: Kind)
    requires i <= j <= |l|
    ensures Bytes(Splice(l, i, j, mid), kind) == Bytes(l, kind) - Bytes(l[i..j], kind) + Bytes(mid, kind)
  {
    assert l == l[..i] + l[i..j] + l[j..];
    BytesJoin(l[..i] + l[i..j], l[j..], kind);
    BytesJoin(l[..i], l[i..j], kind);
    BytesJoin(l[..i] + mid, l[j..], kind);
    BytesJoin(l[..i], mid, kind);
  }

  function Weight(b: Block, kind: Kind): nat {
    if b.kind == kind then b.size else 0
  }

  lemma BytesFew(b: Block, c: Block)
    ensures Bytes([b], Used) == Weight(b, Used) && Bytes([b], Vacant) == Weight(b, Vacant)
    ensures Bytes([b, c], Used) == Weight(b, Used) + Weight(c, Used)
    ensures Bytes([b, c], Vacant) == Weight(b, Vacant) + Weight(c, Vacant)
  {
    assert [b][..0] == [] && [b, c][..1] == [b];
  }

  lemma InUpdate(s: seq<Addr>, m: nat, a: Addr)
    requires Distinct(s) && m < |s| && a !in s && a != HEAD
    ensures Distinct(s[m := a])
    ensures forall x :: x in s[m := a] <==> (x == a || (x in s && x != s[m]))
  {
    var t := s[m := a];
    assert t[m] == a;
    forall x | x in s && x != s[m] ensures x in t {
      var i := Find(s, x);
      assert t[i] == x;
    }
    forall x | x in t ensures x == a || (x in s && x != s[m]) {
      var i := Find(t, x);
      assert i != m ==> s[i] == x;
    }
  }

  lemma InRemove(s: seq<Addr>, m: nat)
    requires Distinct(s) && m < |s|
    ensures Distinct(Remove(s, m))
    ensures forall x :: x in Remove(s, m) <==> (x in s && x != s[m])
  {
    var t := Remove(s, m);
    forall x | x in s && x != s[m] ensures x in t {
      var i := Find(s, x);
      assert t[if i < m then i else i - 1] == x;
    }
    forall x | x in t ensures x in s && x != s[m] {
      var i := Find(t, x);
      assert s[if i < m then i else i + 1] == x;
    }
  }

}
