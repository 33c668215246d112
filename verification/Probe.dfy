/** The probe sequence of the Swiss table: triangular probing by groups of `w` slots
    over a power-of-two circle of `n` control positions. */
module Probe {
  import opened Arith

  /** 0 + 1 + ... + k. */
  function Tri(k: nat): nat {
    if k == 0 then 0 else Tri(k - 1) + k
  }

  /** Offset of the k-th probe window of hash part `h` on a circle of `n` positions. */
  function Offset(h: nat, w: nat, n: nat, k: nat): (r: nat)
    requires n > 0
    ensures r < n
  {
    (h + w * Tri(k)) % n
  }

  /** Position `i` lies in the window of `w` positions that starts at `off` and wraps at `n`.
      In a small table (n < w) one window covers every position. */
  predicate Covers(w: nat, n: nat, off: nat, i: nat) {
    n < w || off <= i < off + w || i + n < off + w
  }

  /** Number of windows that a probe visits before it starts over. */
  function Groups(w: nat, n: nat): (m: nat)
    requires w > 0
  {
    if n < w then 1 else n / w
  }

  /** Distance from the first probe offset to `i`, going around the circle. */
  function Distance(h: nat, n: nat, i: nat): (d: nat)
    requires n > 0 && i < n
    ensures d < n
  {
    var o := h % n;
    if o <= i then i - o else i + n - o
  }

  /** The source's `probe_index`: which group of the circle, counted from the first offset. */
  function GroupIndex(h: nat, w: nat, n: nat, i: nat): nat
    requires n > 0 && w > 0 && i < n
  {
    Distance(h, n, i) / w
  }

  lemma {:induction false} TriClosed(k: nat)
    ensures 2 * Tri(k) == k * (k + 1)
  {
    if k > 0 {
      TriClosed(k - 1);
    }
  }

  /** 2 (T(b) - T(a)) = (b - a)(b + a + 1): two factors of opposite parity. */
  lemma TriDifference(a: nat, b: nat) returns (x: nat, y: nat)
    requires a < b
    ensures 0 < x <= b && 0 < y <= 2 * b && x % 2 != y % 2
    ensures x * y == 2 * (Tri(b) - Tri(a))
  {
    TriClosed(a);
    TriClosed(b);
    x, y := b - a, b + a + 1;
    DifferenceProduct(a, b);
  }

  lemma DifferenceProduct(a: int, b: int)
    ensures (b - a) * (b + a + 1) == b * (b + 1) - a * (a + 1)
  {
    assert (b - a) * (b + a + 1) == (b - a) * (b + 1) + (b - a) * a;
  }

  lemma TriNotCongruent(m: nat, a: nat, b: nat, q: int)
    requires a < b < Pow2(m)
    ensures Tri(b) - Tri(a) != q * Pow2(m)
  {
    var x, y := TriDifference(a, b);
    assert Pow2(m + 1) == 2 * Pow2(m);
    OppositeParityProduct(m + 1, x, y, q);
    MulDouble(q, Pow2(m));
  }

  /** The first 2^m triangular numbers are pairwise distinct modulo 2^m. */
  lemma TriInjective(m: nat, a: nat, b: nat)
    requires a < b < Pow2(m)
    ensures Tri(a) % Pow2(m) != Tri(b) % Pow2(m)
  {
    if Tri(a) % Pow2(m) == Tri(b) % Pow2(m) {
      var q := CongruentDifference(Tri(a), Tri(b), Pow2(m));
      TriNotCongruent(m, a, b, q);
    }
  }

  /** Residues of the first `k` triangular numbers modulo `p`. */
  ghost function Residues(k: nat, p: nat): set<nat>
    requires p > 0
  {
    if k == 0 then {} else Residues(k - 1, p) + {Tri(k - 1) % p}
  }

  lemma {:induction false} ResiduesMember(k: nat, p: nat, r: nat)
    requires p > 0
    ensures r in Residues(k, p) <==> exists a :: 0 <= a < k && Tri(a) % p == r
  {
    if k > 0 {
      ResiduesMember(k - 1, p, r);
      if r == Tri(k - 1) % p {
        assert 0 <= k - 1 < k && Tri(k - 1) % p == r;
      }
    }
  }

  lemma {:induction false} ResiduesCount(k: nat, m: nat)
    requires k <= Pow2(m)
    ensures |Residues(k, Pow2(m))| == k
  {
    if k > 0 {
      ResiduesCount(k - 1, m);
      ResiduesMember(k - 1, Pow2(m), Tri(k - 1) % Pow2(m));
      forall a | 0 <= a < k - 1 ensures Tri(a) % Pow2(m) != Tri(k - 1) % Pow2(m) {
        TriInjective(m, a, k - 1);
      }
    }
  }

  /** Triangular numbers form a complete residue system modulo a power of two:
      every residue is hit exactly once by the first 2^m of them. */
  lemma TriComplete(m: nat, r: nat) returns (k: nat)
    requires r < Pow2(m)
    ensures k < Pow2(m) && Tri(k) % Pow2(m) == r
    ensures forall a :: 0 <= a < Pow2(m) && Tri(a) % Pow2(m) == r ==> a == k
  {
    var p := Pow2(m);
    var res := Residues(p, p);
    ResiduesCount(p, m);
    forall x | x in res ensures x in Below(p) {
      ResiduesMember(p, p, x);
    }
    SubsetSameSize(res, Below(p));
    ResiduesMember(p, p, r);
    k :| 0 <= k < p && Tri(k) % p == r;
    forall a | 0 <= a < p && Tri(a) % p == r ensures a == k {
      if a < k { TriInjective(m, a, k); } else if k < a { TriInjective(m, k, a); }
    }
  }

  /** `probe_seq::next`: index += w, offset = (offset + index) & mask. */
  lemma OffsetNext(h: nat, w: nat, n: nat, k: nat)
    requires n > 0
    ensures Offset(h, w, n, k + 1) == (Offset(h, w, n, k) + w * (k + 1)) % n
  {
    assert w * Tri(k + 1) == w * Tri(k) + w * (k + 1);
    ModAddLeft(h + w * Tri(k), w * (k + 1), n);
  }

  lemma OffsetZero(h: nat, w: nat, n: nat)
    requires n > 0
    ensures Offset(h, w, n, 0) == h % n
  {
    assert w * Tri(0) == 0;
  }

  /** The k-th window starts where group Tri(k) mod m starts. */
  lemma OffsetGroup(h: nat, w: nat, m: nat, k: nat)
    requires w > 0 && m > 0
    ensures w * (Tri(k) % m) + w <= w * m
    ensures Offset(h, w, w * m, k) ==
            var s := h % (w * m) + w * (Tri(k) % m); if s < w * m then s else s - w * m
  {
    var n := w * m;
    var g := Tri(k) % m;
    MulNonNeg(w, m - g - 1);
    assert w * (m - g - 1) == n - w * g - w;
    ModAdd(h, w * Tri(k), n);
    ModScale(w, m, Tri(k));
    var s := h % n + w * g;
    if s < n { ModUnique(s, n, 0, s); } else { ModUnique(s, n, 1, s - n); }
  }

  /** A window covers exactly the positions of one group: the k-th window holds the group
      Tri(k) mod (n / w), counted from the first offset. */
  lemma CoversIffGroup(h: nat, w: nat, m: nat, k: nat, i: nat)
    requires w > 0 && m > 0 && i < w * m
    ensures Covers(w, w * m, Offset(h, w, w * m, k), i) <==> GroupIndex(h, w, w * m, i) == Tri(k) % m
  {
    OffsetGroup(h, w, m, k);
    DivIff(Distance(h, w * m, i), w, Tri(k) % m);
    WindowDistance(w * m, w, h % (w * m), w * (Tri(k) % m), i);
  }

  /** Linear core of the above: distances from `o` turn a wrapped window into an interval. */
  lemma WindowDistance(n: nat, w: nat, o: nat, start: nat, i: nat)
    requires 0 < w <= n && o < n && i < n && start + w <= n
    ensures var off := if o + start < n then o + start else o + start - n;
            var d := if o <= i then i - o else i + n - o;
            Covers(w, n, off, i) <==> start <= d < start + w
  {}

  lemma GroupIndexBound(h: nat, w: nat, m: nat, i: nat)
    requires w > 0 && m > 0 && i < w * m
    ensures GroupIndex(h, w, w * m, i) < m
  {
    var d := Distance(h, w * m, i);
    var g := d / w;
    if g >= m {
      MulNonNeg(g - m, w);
      assert (g - m) * w == g * w - w * m;
    }
  }

  /** The first n / w windows partition the circle: every position is covered by
      exactly one of them. */
  lemma WindowsPartition(h: nat, w: nat, e: nat, i: nat) returns (k: nat)
    requires w > 0 && i < w * Pow2(e)
    ensures k < Pow2(e) && Covers(w, w * Pow2(e), Offset(h, w, w * Pow2(e), k), i)
    ensures forall k' :: 0 <= k' < Pow2(e) && Covers(w, w * Pow2(e), Offset(h, w, w * Pow2(e), k'), i)
                     ==> k' == k
  {
    var m := Pow2(e);
    GroupIndexBound(h, w, m, i);
    k := TriComplete(e, GroupIndex(h, w, w * m, i));
    CoversIffGroup(h, w, m, k, i);
    forall k' | 0 <= k' < m && Covers(w, w * m, Offset(h, w, w * m, k'), i) ensures k' == k {
      CoversIffGroup(h, w, m, k', i);
    }
  }

  /** Positions with the same `probe_index` lie in the same probe window. */
  lemma SameGroup(h: nat, w: nat, m: nat, k: nat, i: nat, j: nat)
    requires w > 0 && m > 0 && i < w * m && j < w * m
    requires GroupIndex(h, w, w * m, i) == GroupIndex(h, w, w * m, j)
    requires Covers(w, w * m, Offset(h, w, w * m, k), i)
    ensures Covers(w, w * m, Offset(h, w, w * m, k), j)
  {
    CoversIffGroup(h, w, m, k, i);
    CoversIffGroup(h, w, m, k, j);
  }
}
