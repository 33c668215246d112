/** Sizing arithmetic of the Swiss table: valid capacities are 2^e - 1, the load factor is 7/8. */
module Capacity {
  import opened Arith

  /** cap + 1 is a power of two. Capacity 0 is the table without storage. */
  ghost predicate IsCapacity(cap: nat) {
    exists e :: 0 <= e && cap + 1 == Pow2(e)
  }

  /** Number of bits of n. */
  function BitLength(n: nat): (r: nat)
    ensures n < Pow2(r) && (n > 0 ==> r > 0 && Pow2(r - 1) <= n)
  {
    if n == 0 then 0 else 1 + BitLength(n / 2)
  }

  /** Rounds up to the next power of two minus one, with a minimum of 1. */
  function NormalizeCapacity(n: nat): nat {
    if n == 0 then 1 else Pow2(BitLength(n)) - 1
  }

  function CapacityToGrowth(w: nat, cap: nat): nat {
    if w == 8 && cap == 7 then 6 else cap - cap / 8
  }

  /** C++ signed division truncates toward zero, so growth 0 gives 0 - 0. */
  function GrowthToLowerboundCapacity(w: nat, growth: nat): nat {
    if w == 8 && growth == 7 then 8
    else growth + (if growth == 0 then 0 else (growth - 1) / 7)
  }

  lemma {:induction false} Pow2Monotone(a: nat, b: nat)
    requires a <= b
    ensures Pow2(a) <= Pow2(b)
  {
    if a < b {
      Pow2Monotone(a, b - 1);
    }
  }

  lemma {:induction false} Pow2Add(a: nat, b: nat)
    ensures Pow2(a + b) == Pow2(a) * Pow2(b)
  {
    if b > 0 {
      Pow2Add(a, b - 1);
      assert Pow2(a) * (2 * Pow2(b - 1)) == 2 * (Pow2(a) * Pow2(b - 1));
    }
  }

  /** The normalized capacity is the least valid (non-zero) capacity that is at least n. */
  lemma NormalizeLeast(n: nat)
    ensures IsCapacity(NormalizeCapacity(n)) && NormalizeCapacity(n) >= 1 && NormalizeCapacity(n) >= n
    ensures forall c :: 1 <= c && c >= n && IsCapacity(c) ==> c >= NormalizeCapacity(n)
  {
    if n == 0 {
      assert NormalizeCapacity(n) + 1 == Pow2(1);
    } else {
      var r := BitLength(n);
      assert NormalizeCapacity(n) + 1 == Pow2(r);
      Pow2Monotone(1, r);
      forall c | c >= n && IsCapacity(c) ensures c >= NormalizeCapacity(n) {
        var e :| 0 <= e && c + 1 == Pow2(e);
        if e < r { Pow2Monotone(e, r - 1); } else { Pow2Monotone(r, e); }
      }
    }
  }

  /** Growth of a valid capacity in closed form: 7/8 of it, or all of it in the smallest tables. */
  lemma GrowthClosed(w: nat, e: nat)
    requires w == 8 || w == 16
    ensures e >= 3 && !(w == 8 && e == 3) ==> CapacityToGrowth(w, Pow2(e) - 1) == 7 * Pow2(e - 3)
    ensures w == 8 && e == 3 ==> CapacityToGrowth(w, Pow2(e) - 1) == 6
    ensures e < 3 ==> CapacityToGrowth(w, Pow2(e) - 1) == Pow2(e) - 1
  {
    if e >= 3 {
      assert Pow2(e) == 8 * Pow2(e - 3) by {
        assert Pow2(e) == 2 * Pow2(e - 1) && Pow2(e - 1) == 2 * Pow2(e - 2) && Pow2(e - 2) == 2 * Pow2(e - 3);
      }
      if e > 3 { assert Pow2(e - 3) == 2 * Pow2(e - 4); }
    } else {
      assert Pow2(0) == 1 && Pow2(1) == 2 && Pow2(2) == 4;
    }
  }

  /** A table with a full group of control bytes keeps an empty slot; a small one uses every slot. */
  lemma GrowthLeavesRoom(w: nat, cap: nat)
    requires (w == 8 || w == 16) && IsCapacity(cap)
    ensures cap + 1 >= w ==> CapacityToGrowth(w, cap) < cap
    ensures cap + 1 < w ==> CapacityToGrowth(w, cap) == cap
    ensures cap >= 1 ==> CapacityToGrowth(w, cap) >= 1
  {
    var e :| 0 <= e && cap + 1 == Pow2(e);
    assert Pow2(3) == 8 && Pow2(4) == 16;
    if e >= 4 { Pow2Monotone(4, e); } else { Pow2Monotone(e, 3); }
  }

  lemma GrowthMonotone(w: nat, c: nat, d: nat)
    requires (w == 8 || w == 16) && IsCapacity(c) && IsCapacity(d) && c <= d
    ensures CapacityToGrowth(w, c) <= CapacityToGrowth(w, d)
  {
    var e :| 0 <= e && c + 1 == Pow2(e);
    var f :| 0 <= f && d + 1 == Pow2(f);
    if f < e { Pow2Monotone(f, e); }
    else { GrowthMonotoneExp(w, e, f); }
  }

  lemma {:induction false} GrowthMonotoneExp(w: nat, e: nat, f: nat)
    requires (w == 8 || w == 16) && e <= f
    ensures CapacityToGrowth(w, Pow2(e) - 1) <= CapacityToGrowth(w, Pow2(f) - 1)
  {
    if e < f {
      GrowthMonotoneExp(w, e, f - 1);
      GrowthDoubles(w, Pow2(f - 1) - 1);
    }
  }

  /** Doubling the table gives room for at least one more element. */
  lemma GrowthDoubles(w: nat, cap: nat)
    requires (w == 8 || w == 16) && IsCapacity(cap)
    ensures IsCapacity(2 * cap + 1)
    ensures CapacityToGrowth(w, 2 * cap + 1) > CapacityToGrowth(w, cap)
  {
    var e :| 0 <= e && cap + 1 == Pow2(e);
    assert 2 * cap + 1 + 1 == Pow2(e + 1);
    GrowthClosed(w, e);
    GrowthClosed(w, e + 1);
    if e == 2 { assert Pow2(0) == 1; }
  }

  /** The two sizing functions form a Galois connection on valid capacities. */
  lemma GrowthGalois(w: nat, e: nat, n: nat)
    requires (w == 8 || w == 16) && e >= 1
    ensures GrowthToLowerboundCapacity(w, n) <= Pow2(e) - 1 <==> n <= CapacityToGrowth(w, Pow2(e) - 1)
  {
    GrowthClosed(w, e);
    if e >= 3 {
      var p := Pow2(e - 3);
      assert Pow2(e) == 8 * p by {
        assert Pow2(e) == 2 * Pow2(e - 1) && Pow2(e - 1) == 2 * Pow2(e - 2) && Pow2(e - 2) == 2 * Pow2(e - 3);
      }
      if e == 3 { assert p == 1; } else { assert p == 2 * Pow2(e - 4); }
      GaloisCore(n, p);
    } else {
      assert Pow2(1) == 2 && Pow2(2) == 4;
    }
  }

  lemma GaloisCore(n: nat, p: nat)
    requires p >= 1
    ensures n + (if n == 0 then 0 else (n - 1) / 7) <= 8 * p - 1 <==> n <= 7 * p
  {}

  /** reserve(n) on an empty table picks the least valid capacity whose growth is at least n. */
  lemma ReserveLeast(w: nat, n: nat)
    requires w == 8 || w == 16
    ensures var c := NormalizeCapacity(GrowthToLowerboundCapacity(w, n));
            IsCapacity(c) && c >= 1 && CapacityToGrowth(w, c) >= n
    ensures forall c :: 1 <= c && IsCapacity(c) && CapacityToGrowth(w, c) >= n
                    ==> c >= NormalizeCapacity(GrowthToLowerboundCapacity(w, n))
  {
    var g := GrowthToLowerboundCapacity(w, n);
    var c0 := NormalizeCapacity(g);
    NormalizeLeast(g);
    var e0 :| 0 <= e0 && c0 + 1 == Pow2(e0);
    assert Pow2(0) == 1;
    GrowthGalois(w, e0, n);
    forall c | 1 <= c && IsCapacity(c) && CapacityToGrowth(w, c) >= n ensures c >= c0 {
      var e :| 0 <= e && c + 1 == Pow2(e);
      GrowthGalois(w, e, n);
    }
  }

  /** Sizes that sit in the top eighth of their power of two. */
  ghost predicate Overfull(w: nat, size: nat) {
    (w == 8 && size == 7) || exists e :: 0 <= e && 7 * Pow2(e) < size < 8 * Pow2(e)
  }

  /** rehash(0) sizes the new table from size() without the 7/8 slack. The new table can hold the
      elements exactly when the size is not in the top eighth of its power of two. */
  lemma RehashZeroFits(w: nat, size: nat)
    requires (w == 8 || w == 16) && size >= 1
    ensures CapacityToGrowth(w, NormalizeCapacity(size)) >= size <==> !Overfull(w, size)
  {
    var r := BitLength(size);
    GrowthClosed(w, r);
    if r >= 3 {
      var p := Pow2(r - 3);
      assert Pow2(r) == 8 * p && Pow2(r - 1) == 4 * p by {
        assert Pow2(r) == 2 * Pow2(r - 1) && Pow2(r - 1) == 2 * Pow2(r - 2) && Pow2(r - 2) == 2 * Pow2(r - 3);
      }
      if e :| 0 <= e && 7 * Pow2(e) < size < 8 * Pow2(e) {
        if e < r - 3 {
          Pow2Monotone(e, r - 4);
          assert p == 2 * Pow2(r - 4);
        } else {
          Pow2Monotone(r - 3, e);
        }
        assert 7 * p < size;
      }
      if w == 8 && r == 3 { assert p == 1; }
    } else {
      assert Pow2(0) == 1 && Pow2(1) == 2;
      assert forall e :: 0 <= e ==> Pow2(e) >= 1;
    }
  }

  /** The failing family is not empty: seven elements in 8-wide groups fill all seven slots of the new table,
      and fifteen do in 16-wide groups. */
  lemma RehashZeroCounterexample()
    ensures NormalizeCapacity(7) == 7 && CapacityToGrowth(8, 7) < 7
    ensures NormalizeCapacity(15) == 15 && CapacityToGrowth(16, 15) < 15
  {
    assert BitLength(7) == 3 by { assert BitLength(3) == 2; assert BitLength(1) == 1; }
    assert BitLength(15) == 4 by { assert BitLength(7) == 3; }
    assert Pow2(3) == 8 && Pow2(4) == 16;
  }

  lemma Pow2Values()
    ensures Pow2(4) == 0x10 && Pow2(8) == 0x100 && Pow2(16) == 0x1_0000
    ensures Pow2(32) == 0x1_0000_0000 && Pow2(64) == 0x1_0000_0000_0000_0000
  {
    assert Pow2(2) == 4 && Pow2(4) == 16;
    Pow2Add(4, 4);
    Pow2Add(8, 8);
    Pow2Add(16, 16);
    Pow2Add(32, 32);
  }

  lemma DivPow2(n: nat, s: nat)
    requires s > 0
    ensures n / Pow2(s) == (n / 2) / Pow2(s - 1)
  {
    var p := Pow2(s - 1);
    var q := n / (2 * p);
    var r := n % (2 * p);
    assert n == 2 * (q * p) + r by { MulDouble(q, p); }
    assert n / 2 == q * p + r / 2;
    ModUnique(n / 2, p, q, r / 2);
  }

  /** Shifting out s low bits of a number that has more than s bits shortens it by s. */
  lemma {:induction false} BitLengthShift(n: nat, s: nat)
    ensures n / Pow2(s) == 0 <==> n < Pow2(s)
    ensures n / Pow2(s) != 0 ==> BitLength(n) == s + BitLength(n / Pow2(s))
  {
    if s > 0 {
      BitLengthShift(n / 2, s - 1);
      DivPow2(n, s);
    }
  }

  lemma DivBound(n: nat, a: nat, b: nat)
    requires n < Pow2(a + b)
    ensures n / Pow2(a) < Pow2(b)
  {
    Pow2Add(a, b);
    DivLess(n, Pow2(a), Pow2(b));
  }

  /** One halving step of the search: if any of the bits above s is set, drop the low s bits. */
  method ClzStep(n: nat, zeroes: nat, s: nat, ghost len: nat) returns (n': nat, zeroes': nat)
    requires n < Pow2(2 * s) && zeroes >= s && zeroes + len == 60 + BitLength(n)
    ensures n' < Pow2(s) && zeroes' + len == 60 + BitLength(n') && (zeroes' == zeroes || zeroes' == zeroes - s)
  {
    n', zeroes' := n, zeroes;
    BitLengthShift(n, s);
    DivBound(n, s, s);
    if n / Pow2(s) != 0 { zeroes', n' := zeroes - s, n / Pow2(s); }
  }

  /** CountLeadingZeros64Slow: binary search for the top bit, four bits looked up in a table. */
  method CountLeadingZeros64(n0: nat) returns (z: nat)
    requires n0 < 0x1_0000_0000_0000_0000
    ensures z + BitLength(n0) == 64
  {
    ghost var len := BitLength(n0);
    var s := 32;
    assert n0 < Pow2(2 * s) by { Pow2Values(); }
    var n, zeroes := ClzStep(n0, 60, s, len);
    s := 16;
    n, zeroes := ClzStep(n, zeroes, s, len);
    s := 8;
    n, zeroes := ClzStep(n, zeroes, s, len);
    s := 4;
    n, zeroes := ClzStep(n, zeroes, s, len);
    assert n < 16 by { Pow2Values(); }
    z := NibbleZeros(n) + zeroes;
  }

  /** The source's string table, with its terminating NUL as the last entry. */
  function NibbleZeros(n: nat): (r: nat)
    requires n < 16
    ensures r + BitLength(n) == 4
  {
    assert BitLength(n) == if n == 0 then 0 else 1 + BitLength(n / 2);
    assert BitLength(n / 2) == if n / 2 == 0 then 0 else 1 + BitLength(n / 2 / 2);
    assert BitLength(n / 2 / 2) == if n / 2 / 2 == 0 then 0 else 1 + BitLength(n / 2 / 2 / 2);
    assert BitLength(0) == 0 && BitLength(1) == 1;
    [4, 3, 2, 2, 1, 1, 1, 1, 0, 0, 0, 0, 0, 0, 0, 0][n]
  }

  lemma AllOnesShift(len: nat, z: nat, all: nat)
    requires all == Pow2(len + z)
    ensures (all - 1) / Pow2(z) == Pow2(len) - 1
  {
    var q, p := Pow2(len), Pow2(z);
    Pow2Add(len, z);
    assert all - 1 == (q - 1) * p + (p - 1);
    ModUnique(all - 1, p, q - 1, p - 1);
  }

  /** NormalizeCapacity as coded: an all-ones word shifted right by the leading zeros. */
  method NormalizeCapacity64(n: nat) returns (c: nat)
    requires n < 0x1_0000_0000_0000_0000
    ensures c == NormalizeCapacity(n)
  {
    if n == 0 { return 1; }
    var z := CountLeadingZeros64(n);
    assert 0x1_0000_0000_0000_0000 == Pow2(BitLength(n) + z) by { Pow2Values(); }
    AllOnesShift(BitLength(n), z, 0x1_0000_0000_0000_0000);
    c := 0xFFFF_FFFF_FFFF_FFFF / Pow2(z);
  }
}
