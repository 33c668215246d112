/** Ring indices of the atomic queue: power-of-two sizing and the index shuffle that spreads
    consecutive tickets over cache lines. */
module RingIndex {
  import opened Arith

  // ------------------------------------------------------------------ bit operations on naturals

  function Xor(a: nat, b: nat): nat {
    if a == 0 && b == 0 then 0 else 2 * Xor(a / 2, b / 2) + (if a % 2 == b % 2 then 0 else 1)
  }

  function And(a: nat, b: nat): nat {
    if a == 0 || b == 0 then 0
    else 2 * And(a / 2, b / 2) + (if a % 2 == 1 && b % 2 == 1 then 1 else 0)
  }

  /** x << k. */
  function Shl(x: nat, k: nat): nat {
    if k == 0 then x else 2 * Shl(x, k - 1)
  }

  /** x >> k. */
  function Shr(x: nat, k: nat): nat {
    if k == 0 then x else Shr(x / 2, k - 1)
  }

  /** The low k bits of x. */
  function Low(x: nat, k: nat): (r: nat)
    ensures r < Pow2(k)
  {
    if k == 0 then 0 else 2 * Low(x / 2, k - 1) + x % 2
  }

  lemma XorStep(a: nat, b: nat)
    ensures Xor(a, b) / 2 == Xor(a / 2, b / 2) && (Xor(a, b) % 2 == 0 <==> a % 2 == b % 2)
  {}

  lemma {:induction false} XorCancel(a: nat, b: nat)
    ensures Xor(Xor(a, b), b) == a
  {
    if a != 0 || b != 0 {
      XorCancel(a / 2, b / 2);
      XorStep(a, b);
      XorStep(Xor(a, b), b);
    }
  }

  lemma {:induction false} XorComm(a: nat, b: nat)
    ensures Xor(a, b) == Xor(b, a)
  {
    if a != 0 || b != 0 { XorComm(a / 2, b / 2); }
  }

  lemma {:induction false} XorZero(a: nat)
    ensures Xor(a, 0) == a
  {
    if a != 0 { XorZero(a / 2); }
  }

  /** x is its high part shifted left plus its low part. */
  lemma {:induction false} SplitJoin(x: nat, k: nat)
    ensures x == Shl(Shr(x, k), k) + Low(x, k)
  {
    if k > 0 { SplitJoin(x / 2, k - 1); }
  }

  lemma {:induction false} JoinSplit(h: nat, l: nat, k: nat)
    requires l < Pow2(k)
    ensures Shr(Shl(h, k) + l, k) == h && Low(Shl(h, k) + l, k) == l
  {
    if k > 0 {
      JoinSplit(h, l / 2, k - 1);
      assert (Shl(h, k) + l) / 2 == Shl(h, k - 1) + l / 2;
    }
  }

  lemma {:induction false} XorLow(k: nat, a: nat, b: nat)
    requires a < Pow2(k) && b < Pow2(k)
    ensures Xor(a, b) < Pow2(k)
  {
    if k > 0 {
      XorLow(k - 1, a / 2, b / 2);
      XorStep(a, b);
    }
  }

  /** One more low bit on either side. */
  lemma XorJoinStep(a: nat, b: nat, a': nat, b': nat, al: nat, bl: nat, sx: nat)
    requires a / 2 == a' && b / 2 == b' && a % 2 == al % 2 && b % 2 == bl % 2
    requires Xor(a', b') == sx + Xor(al / 2, bl / 2)
    ensures Xor(a, b) == 2 * sx + Xor(al, bl)
  {}

  /** Xor works on the low k bits and on the rest independently. */
  lemma {:induction false} XorSplit(k: nat, ah: nat, al: nat, bh: nat, bl: nat)
    requires al < Pow2(k) && bl < Pow2(k)
    ensures Xor(Shl(ah, k) + al, Shl(bh, k) + bl) == Shl(Xor(ah, bh), k) + Xor(al, bl)
  {
    if k > 0 {
      XorSplit(k - 1, ah, al / 2, bh, bl / 2);
      XorJoinStep(Shl(ah, k) + al, Shl(bh, k) + bl, Shl(ah, k - 1) + al / 2, Shl(bh, k - 1) + bl / 2, al, bl,
        Shl(Xor(ah, bh), k - 1));
    }
  }

  /** Masking with 2^k - 1 keeps the low k bits. */
  lemma {:induction false} AndMask(x: nat, k: nat)
    ensures And(x, Pow2(k) - 1) == Low(x, k)
  {
    if k > 0 {
      AndMask(x / 2, k - 1);
      assert (Pow2(k) - 1) / 2 == Pow2(k - 1) - 1 && (Pow2(k) - 1) % 2 == 1;
      if x == 0 { LowZero(k); }
    }
  }

  lemma {:induction false} LowZero(k: nat)
    ensures Low(0, k) == 0
  {
    if k > 0 { LowZero(k - 1); }
  }

  lemma ModHalf(x: nat, p: nat)
    requires p > 0
    ensures x % (2 * p) == 2 * ((x / 2) % p) + x % 2
  {
    var q, r := (x / 2) / p, (x / 2) % p;
    assert x == 2 * (q * p + r) + x % 2;
    MulDouble(q, p);
    ModUnique(x, 2 * p, q, 2 * r + x % 2);
  }

  lemma {:induction false} LowIsMod(x: nat, k: nat)
    ensures Low(x, k) == x % Pow2(k)
  {
    if k > 0 {
      LowIsMod(x / 2, k - 1);
      ModHalf(x, Pow2(k - 1));
    }
  }

  lemma {:induction false} LowLow(x: nat, m: nat, n: nat)
    requires m <= n
    ensures Low(Low(x, n), m) == Low(x, m)
  {
    if m > 0 {
      LowLow(x / 2, m - 1, n - 1);
      assert Low(x, n) / 2 == Low(x / 2, n - 1) && Low(x, n) % 2 == x % 2;
    }
  }

  lemma {:induction false} JoinBound(h: nat, l: nat, k: nat, n: nat)
    requires l < Pow2(k)
    ensures Shl(h, k) + l < Pow2(n + k) <==> h < Pow2(n)
  {
    if k > 0 {
      JoinBound(h, l / 2, k - 1, n);
      assert Pow2(n + k) == 2 * Pow2(n + k - 1);
      assert (Shl(h, k) + l) / 2 == Shl(h, k - 1) + l / 2;
    }
  }

  // ------------------------------------------------------------------ remap_index

  /** remap_index<BITS>: swap the low BITS bits with the next BITS bits, by two xors. */
  function Remap(bits: nat, index: nat): nat {
    var mix := And(Xor(index, Shr(index, bits)), Pow2(bits) - 1);
    Xor(Xor(index, mix), Shl(mix, bits))
  }

  /** An index as (high part, cache line bits, element bits). */
  function Join(k: nat, q: nat, l: nat, e: nat): nat {
    Shl(Shl(q, k) + l, k) + e
  }

  lemma Unjoin(k: nat, index: nat)
    ensures index == Join(k, Shr(Shr(index, k), k), Low(Shr(index, k), k), Low(index, k))
  {
    SplitJoin(index, k);
    SplitJoin(Shr(index, k), k);
  }

  lemma XorTwice(e: nat, l: nat)
    ensures Xor(e, Xor(e, l)) == l && Xor(l, Xor(e, l)) == e
  {
    XorComm(e, l);
    XorCancel(l, e);
    XorComm(Xor(l, e), e);
    XorCancel(e, l);
    XorComm(Xor(e, l), l);
  }

  /** The low k bits of an xor are the xor of the low k bits. */
  lemma LowXor(k: nat, ah: nat, al: nat, bh: nat, bl: nat, x: nat)
    requires al < Pow2(k) && bl < Pow2(k) && x == Xor(Shl(ah, k) + al, Shl(bh, k) + bl)
    ensures Low(x, k) == Xor(al, bl) < Pow2(k)
  {
    XorSplit(k, ah, al, bh, bl);
    XorLow(k, al, bl);
    JoinSplit(Xor(ah, bh), Xor(al, bl), k);
  }

  lemma RemapMix(k: nat, q: nat, l: nat, e: nat)
    requires l < Pow2(k) && e < Pow2(k)
    ensures And(Xor(Join(k, q, l, e), Shr(Join(k, q, l, e), k)), Pow2(k) - 1) == Xor(e, l) < Pow2(k)
  {
    var line := Shl(q, k) + l;
    var x := Xor(Shl(line, k) + e, line);
    JoinSplit(line, e, k);
    AndMask(x, k);
    LowXor(k, line, e, q, l, x);
  }

  /** The two xors exchange the line bits and the element bits. */
  lemma RemapSwaps(k: nat, q: nat, l: nat, e: nat)
    requires l < Pow2(k) && e < Pow2(k)
    ensures Remap(k, Join(k, q, l, e)) == Join(k, q, e, l)
  {
    RemapMix(k, q, l, e);
    TwoXors(k, q, l, e, Xor(e, l));
  }

  lemma TwoXors(k: nat, q: nat, l: nat, e: nat, mix: nat)
    requires l < Pow2(k) && e < Pow2(k) && mix < Pow2(k) && mix == Xor(e, l)
    ensures Xor(Xor(Join(k, q, l, e), mix), Shl(mix, k)) == Join(k, q, e, l)
  {
    XorTwice(e, l);
    FirstXor(k, Shl(q, k) + l, e, mix, l);
    SecondXor(k, q, l, mix, e);
  }

  lemma {:induction false} ShlZero(k: nat)
    ensures Shl(0, k) == 0
  {
    if k > 0 { ShlZero(k - 1); }
  }

  lemma FirstXor(k: nat, line: nat, e: nat, mix: nat, l: nat)
    requires e < Pow2(k) && mix < Pow2(k) && Xor(e, mix) == l
    ensures Xor(Shl(line, k) + e, mix) == Shl(line, k) + l
  {
    ShlZero(k);
    XorSplit(k, line, e, 0, mix);
    XorZero(line);
  }

  lemma SecondXor(k: nat, q: nat, l: nat, mix: nat, e: nat)
    requires l < Pow2(k) && mix < Pow2(k) && Xor(l, mix) == e
    ensures Xor(Join(k, q, l, l), Shl(mix, k)) == Join(k, q, e, l)
  {
    var line := Shl(q, k) + l;
    FirstXor(k, q, l, mix, e);
    XorHigh(k, line, l, mix);
  }

  lemma XorHigh(k: nat, line: nat, l: nat, mix: nat)
    requires l < Pow2(k)
    ensures Xor(Shl(line, k) + l, Shl(mix, k)) == Shl(Xor(line, mix), k) + l
  {
    XorSplit(k, line, l, mix, 0);
    XorZero(l);
  }

  /** remap_index is an involution. */
  lemma RemapInvolution(bits: nat, index: nat)
    ensures Remap(bits, Remap(bits, index)) == index
  {
    var q, l, e := Shr(Shr(index, bits), bits), Low(Shr(index, bits), bits), Low(index, bits);
    Unjoin(bits, index);
    RemapSwaps(bits, q, l, e);
    RemapSwaps(bits, q, e, l);
  }

  lemma JoinInRange(k: nat, q: nat, l: nat, e: nat, n: nat)
    requires l < Pow2(k) && e < Pow2(k)
    ensures Join(k, q, l, e) < Pow2(n + k + k) <==> q < Pow2(n)
  {
    JoinBound(Shl(q, k) + l, e, k, n + k);
    JoinBound(q, l, k, n);
  }

  /** remap_index stays within a ring of 2^m slots, m >= 2 BITS. */
  lemma RemapInRange(bits: nat, m: nat, index: nat)
    requires m >= 2 * bits && index < Pow2(m)
    ensures Remap(bits, index) < Pow2(m)
  {
    var q, l, e := Shr(Shr(index, bits), bits), Low(Shr(index, bits), bits), Low(index, bits);
    Unjoin(bits, index);
    RemapSwaps(bits, q, l, e);
    JoinInRange(bits, q, l, e, m - 2 * bits);
    JoinInRange(bits, q, e, l, m - 2 * bits);
  }

  // ------------------------------------------------------------------ tickets to slots

  /** The slot of a ticket in a ring of 2^m slots. */
  function Slot(bits: nat, m: nat, ticket: nat): nat {
    Remap(bits, ticket % Pow2(m))
  }

  /** Tickets share a slot exactly when they are congruent modulo the ring size. */
  lemma SlotEqual(bits: nat, m: nat, s: nat, t: nat)
    ensures Slot(bits, m, s) == Slot(bits, m, t) <==> s % Pow2(m) == t % Pow2(m)
  {
    RemapInvolution(bits, s % Pow2(m));
    RemapInvolution(bits, t % Pow2(m));
  }

  /** The code masks the low 32 bits of the counter: the slot does not change when the counter wraps. */
  lemma SlotAcrossWrap(bits: nat, m: nat, ticket: nat)
    requires m <= 32
    ensures Remap(bits, And(ticket % Pow2(32), Pow2(m) - 1)) == Slot(bits, m, ticket)
  {
    AndMask(ticket % Pow2(32), m);
    LowIsMod(ticket, 32);
    LowLow(ticket, m, 32);
    LowIsMod(ticket, m);
  }

  /** Any 2^BITS consecutive tickets fall on distinct cache lines (of 2^BITS slots each). */
  lemma DistinctCacheLines(bits: nat, m: nat, s: nat, t: nat)
    requires m >= 2 * bits && s < t < s + Pow2(bits)
    ensures Shr(Slot(bits, m, s), bits) != Shr(Slot(bits, m, t), bits)
  {
    LineOfSlot(bits, m, s);
    LineOfSlot(bits, m, t);
    NotCongruent(s, t, Pow2(bits));
  }

  lemma NotCongruent(s: nat, t: nat, p: nat)
    requires s < t < s + p
    ensures s % p != t % p
  {
    if s % p == t % p {
      var q := CongruentDifference(s, t, p);
      if q != 0 { MultipleBound(q, p); }
    }
  }

  /** Within a cache line index, the low BITS bits are those of the ticket. */
  lemma LineOfSlot(bits: nat, m: nat, t: nat)
    requires m >= 2 * bits
    ensures Low(Shr(Slot(bits, m, t), bits), bits) == t % Pow2(bits)
  {
    LineOfRemap(bits, t % Pow2(m));
    LowIsMod(t, m);
    LowLow(t, bits, m);
    LowIsMod(t, bits);
  }

  lemma LineOfRemap(bits: nat, index: nat)
    ensures Low(Shr(Remap(bits, index), bits), bits) == Low(index, bits)
  {
    var q, l, e := Shr(Shr(index, bits), bits), Low(Shr(index, bits), bits), Low(index, bits);
    Unjoin(bits, index);
    RemapSwaps(bits, q, l, e);
    JoinSplit(Shl(q, bits) + e, l, bits);
    JoinSplit(q, e, bits);
  }

  // ------------------------------------------------------------------ ring size

  function OrEqual(x: bv32, u: bv32): bv32
    requires u < 32
  {
    x | (x >> u)
  }

  /** round_up_to_power_of_2 on 32-bit words. */
  function RoundUpToPowerOf2(a: bv32): bv32 {
    OrEqual(OrEqual(OrEqual(OrEqual(OrEqual(a - 1, 1), 2), 4), 8), 16) + 1
  }

  /** For requests in 1..2^31 the result is the least power of two that is at least the request. */
  lemma RoundUpLeast(a: bv32)
    requires 1 <= a <= 0x8000_0000
    ensures var r := RoundUpToPowerOf2(a);
            r != 0 && r & (r - 1) == 0 && a <= r && (r >> 1) < a
  {}

  /** Outside that range the result wraps to zero. */
  lemma RoundUpWraps(a: bv32)
    requires a == 0 || a > 0x8000_0000
    ensures RoundUpToPowerOf2(a) == 0
  {}

  predicate IsPow2(x: bv32) { x != 0 && x & (x - 1) == 0 }

  function Max(a: bv32, b: bv32): bv32 { if a < b then b else a }

  lemma MaxFits(r: bv32, least: bv32, request: bv32)
    requires IsPow2(r) && IsPow2(least) && request <= r
    ensures IsPow2(Max(r, least)) && request <= Max(r, least) && least <= Max(r, least)
  {}

  lemma RoundUpBelow(a: bv32, p: bv32)
    requires 1 <= a <= 0x8000_0000 && IsPow2(p) && a <= p
    ensures RoundUpToPowerOf2(a) <= p
  {}

  /** The ring size is the least power of two that is at least the request and at least 2^(2 BITS), which
      keeps the index shuffle within the ring. */
  lemma RingSizeLeast(request: bv32, least: bv32, n: bv32, p: bv32)
    requires 1 <= request <= 0x8000_0000 && IsPow2(least) && n == Max(RoundUpToPowerOf2(request), least)
    ensures IsPow2(n) && request <= n && least <= n
    ensures IsPow2(p) && request <= p && least <= p ==> n <= p
  {
    var r := RoundUpToPowerOf2(request);
    RoundUpLeast(request);
    MaxFits(r, least, request);
    if IsPow2(p) && request <= p { RoundUpBelow(request, p); }
  }
}
