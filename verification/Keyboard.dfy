/** The keyboard queue between the HID handlers and the guest, and the handover of the keyboard to the on-screen
    display. Every method runs with interrupts disabled, so calls are atomic steps. */
module Keyboard {

  const QUEUE: nat := 128

  type Event = x: int | 0 <= x < 0x1_0000

  /** Key events have 2 in their top two bits; everything else bypasses the queue. */
  predicate IsKey(e: Event) {
    e / 0x4000 == 2
  }

  function KeyOf(e: Event): (k: nat)
    ensures k < 128
  {
    e % 128
  }

  predicate IsRelease(e: Event) {
    e / 128 % 2 == 1
  }

  /** The bits of an event: two of its kind, six that do not matter, one for a release, seven of the key. */
  lemma EventParts(e: Event, kind: nat, rest: nat, release: nat, key: nat)
    requires kind < 4 && rest < 64 && release < 2 && key < 128
    requires e == 0x4000 * kind + 0x100 * rest + 0x80 * release + key
    ensures (IsKey(e) <==> kind == 2) && KeyOf(e) == key && (IsRelease(e) <==> release == 1)
  {
    assert e / 128 == 128 * kind + 2 * rest + release;
  }

  // ---------------------------------------------------------------- the bitmap of held keys

  function Mask(k: nat): bv32
    requires k < 32
  {
    (1 as bv32) << k
  }

  function With(w: bv32, m: bv32): bv32 {
    w | m
  }

  function Without(w: bv32, m: bv32): bv32 {
    w & !m
  }

  predicate Test(w: bv32, m: bv32) {
    w & m != 0
  }

  predicate Bit(w: bv32, k: nat)
    requires k < 32
  {
    Test(w, Mask(k))
  }

  /** Setting or clearing one bit changes that bit only. */
  lemma OneBit(w: bv32, k: nat, j: nat)
    requires k < 32 && j < 32
    ensures Bit(With(w, Mask(k)), j) <==> (j == k || Bit(w, j))
    ensures Bit(Without(w, Mask(k)), j) <==> (j != k && Bit(w, j))
  {
    hide Mask(), With(), Without(), Test();
    MaskLaws(k, j);
    if j == k {
      OwnBit(w, Mask(k));
    } else {
      OtherBit(w, Mask(k), Mask(j));
    }
  }

  predicate Disjoint(m: bv32, n: bv32) {
    m & n == 0
  }

  lemma MaskLaws(k: nat, j: nat)
    requires k < 32 && j < 32
    ensures Test(Mask(k), Mask(k)) && (k != j ==> Disjoint(Mask(k), Mask(j)))
  {
  }

  lemma OwnBit(w: bv32, m: bv32)
    requires Test(m, m)
    ensures Test(With(w, m), m) && !Test(Without(w, m), m)
  {
  }

  lemma OtherBit(w: bv32, m: bv32, n: bv32)
    requires Disjoint(m, n)
    ensures Test(With(w, m), n) == Test(w, n) && Test(Without(w, m), n) == Test(w, n)
  {
    OtherSet(w, m, n);
    OtherCleared(w, m, n);
  }

  lemma OtherSet(w: bv32, m: bv32, n: bv32)
    requires m & n == 0
    ensures (w | m) & n == w & n
  {
  }

  lemma OtherCleared(w: bv32, m: bv32, n: bv32)
    requires m & n == 0
    ensures (w & !m) & n == w & n
  {
  }

  predicate Empty(w: bv32) {
    w == 0
  }

  lemma LowClear(w: bv32)
    requires forall k: nat :: k < 16 ==> !Bit(w, k)
    ensures w & 0xFFFF == 0
  {
    assert !Bit(w, 0) && !Bit(w, 1) && !Bit(w, 2) && !Bit(w, 3) && !Bit(w, 4) && !Bit(w, 5) && !Bit(w, 6) && !Bit(w, 7);
    assert !Bit(w, 8) && !Bit(w, 9) && !Bit(w, 10) && !Bit(w, 11) && !Bit(w, 12) && !Bit(w, 13) && !Bit(w, 14);
    assert !Bit(w, 15);
  }

  lemma HighClear(w: bv32)
    requires forall k: nat :: 16 <= k < 32 ==> !Bit(w, k)
    ensures w & 0xFFFF_0000 == 0
  {
    assert !Bit(w, 16) && !Bit(w, 17) && !Bit(w, 18) && !Bit(w, 19) && !Bit(w, 20) && !Bit(w, 21) && !Bit(w, 22);
    assert !Bit(w, 23);
    assert !Bit(w, 24) && !Bit(w, 25) && !Bit(w, 26) && !Bit(w, 27) && !Bit(w, 28) && !Bit(w, 29) && !Bit(w, 30);
    assert !Bit(w, 31);
  }

  lemma NoBits(w: bv32)
    ensures Empty(w) <==> forall k: nat :: k < 32 ==> !Bit(w, k)
  {
    hide Mask();
    if forall k: nat :: k < 32 ==> !Bit(w, k) {
      LowClear(w);
      HighClear(w);
    }
  }

  /** The bitmap words hold exactly the keys of `down`. */
  ghost predicate Holds(words: seq<bv32>, down: set<nat>) {
    && |words| == 4
    && (forall k :: k in down ==> k < 128)
    && (forall k: nat :: k < 128 ==> (Bit(words[k / 32], k % 32) <==> k in down))
  }

  /** Keys down after an event arrived. */
  function After(down: set<nat>, e: Event): set<nat> {
    if IsRelease(e) then down - {KeyOf(e)} else down + {KeyOf(e)}
  }

  function Marked(words: seq<bv32>, e: Event): (r: seq<bv32>)
    requires |words| == 4
    ensures |r| == 4
  {
    var k := KeyOf(e);
    words[k / 32 := if IsRelease(e) then Without(words[k / 32], Mask(k % 32)) else With(words[k / 32], Mask(k % 32))]
  }

  lemma MarkedHolds(words: seq<bv32>, down: set<nat>, e: Event)
    requires Holds(words, down)
    ensures Holds(Marked(words, e), After(down, e))
  {
    hide Bit(), Mask(), With(), Without(), KeyOf(), IsRelease();
    var k, r, d := KeyOf(e), Marked(words, e), After(down, e);
    forall j: nat | j < 128 ensures Bit(r[j / 32], j % 32) <==> j in d {
      if j / 32 == k / 32 {
        OneBit(words[k / 32], k % 32, j % 32);
        assert j % 32 == k % 32 ==> j == k;
      }
    }
  }

  function All(a: bv32, b: bv32, c: bv32, d: bv32): bv32 {
    a | b | c | d
  }

  lemma AllEmpty(a: bv32, b: bv32, c: bv32, d: bv32)
    ensures Empty(All(a, b, c, d)) <==> Empty(a) && Empty(b) && Empty(c) && Empty(d)
  {
  }

  lemma NoneHeld(words: seq<bv32>, down: set<nat>)
    requires Holds(words, down)
    ensures Empty(All(words[0], words[1], words[2], words[3])) <==> down == {}
  {
    hide Bit(), All(), Empty();
    AllEmpty(words[0], words[1], words[2], words[3]);
    forall i | 0 <= i < 4 ensures Empty(words[i]) <==> forall k: nat :: k < 32 ==> !Bit(words[i], k) {
      NoBits(words[i]);
    }
    if k :| k in down {
      assert !Empty(words[k / 32]);
    }
    if down == {} {
      forall i, k: nat | 0 <= i < 4 && k < 32 ensures !Bit(words[i], k) {
        assert (32 * i + k) / 32 == i && (32 * i + k) % 32 == k;
      }
    }
  }
}
