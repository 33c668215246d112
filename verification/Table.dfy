/** The Swiss table as a value: control bytes with cloned tail, slots, and the invariant that makes
    lookup correct, together with what each primitive update does to it. */
module Table {
  import opened Arith
  import opened Capacity
  import opened Group
  import opened Probe

  /** A hash value split as the table uses it: H1 = hash >> 7 picks the probe sequence,
      H2 = hash & 0x7F is stored in the control byte. */
  datatype HashVal = HashVal(h1: nat, h2: bv7)

  // -------------------------------------------------------------- control bytes

  /** Layout of the control array of a table with `cap` slots and groups of `w`.
      Large tables (cap >= w - 1) clone the first w - 1 bytes behind the sentinel; small ones
      clone their `cap` bytes and pad with Empty. */
  ghost predicate Shape(w: nat, cap: nat, ctrl: seq<Ctrl>) {
    && (w == 8 || w == 16)
    && IsCapacity(cap)
    && |ctrl| >= cap + w + (if cap + 1 >= w then 1 else 0)
    && ctrl[cap] == Sentinel
    && (forall i :: 0 <= i < cap ==> ctrl[i] != Sentinel)
    && (cap + 1 >= w ==> forall p :: cap + 1 <= p < cap + w ==> ctrl[p] == ctrl[p - cap - 1])
    && (cap + 1 < w ==>
          && (forall p :: cap + 1 <= p <= 2 * cap ==> ctrl[p] == ctrl[p - cap - 1])
          && (forall p :: 2 * cap + 1 <= p < cap + w ==> ctrl[p] == Empty))
  }

  /** A small capacity is 0, 1 or 3, or 7 with 16-wide groups; it divides the group width evenly. */
  lemma SmallCapacity(w: nat, cap: nat)
    requires (w == 8 || w == 16) && IsCapacity(cap) && cap + 1 < w
    ensures cap == 0 || cap == 1 || cap == 3 || (cap == 7 && w == 16)
  {
    var e :| 0 <= e && cap + 1 == Pow2(e);
    assert Pow2(0) == 1 && Pow2(1) == 2 && Pow2(2) == 4 && Pow2(3) == 8 && Pow2(4) == 16;
    if e >= 4 { Pow2Monotone(4, e); }
  }

  /** A large circle is a whole number 2^e of groups. */
  lemma LargeCapacity(w: nat, cap: nat) returns (e: nat)
    requires (w == 8 || w == 16) && IsCapacity(cap) && cap + 1 >= w
    ensures cap + 1 == w * Pow2(e) && Groups(w, cap + 1) == Pow2(e)
  {
    var f :| 0 <= f && cap + 1 == Pow2(f);
    var b := if w == 8 then 3 else 4;
    assert Pow2(2) == 4 && Pow2(3) == 8 && Pow2(4) == 16;
    if f < b { Pow2Monotone(f, b - 1); }
    e := f - b;
    Pow2Add(e, b);
    ModUnique(cap + 1, w, Pow2(e), 0);
  }

  /** Where set_ctrl writes the second copy of byte i:
      ((i - w) & cap) + 1 + ((w - 1) & cap), the masks being reductions modulo cap + 1. */
  function MirrorIndex(w: nat, cap: nat, i: nat): nat {
    (i - w) % (cap + 1) + 1 + (w - 1) % (cap + 1)
  }

  lemma MirrorClosed(w: nat, cap: nat, i: nat)
    requires (w == 8 || w == 16) && IsCapacity(cap) && i < cap
    ensures MirrorIndex(w, cap, i) == if cap + 1 >= w && i >= w then i else i + cap + 1
  {
    if cap + 1 >= w {
      if i >= w { ModUnique(i - w, cap + 1, 0, i - w); } else { ModUnique(i - w, cap + 1, -1, i - w + cap + 1); }
      ModUnique(w - 1, cap + 1, 0, w - 1);
    } else {
      SmallCapacity(w, cap);
    }
  }

  function SetCtrl(w: nat, cap: nat, ctrl: seq<Ctrl>, i: nat, c: Ctrl): seq<Ctrl>
    requires i < |ctrl| && MirrorIndex(w, cap, i) < |ctrl|
  {
    ctrl[i := c][MirrorIndex(w, cap, i) := c]
  }

  lemma SetCtrlInBounds(w: nat, cap: nat, ctrl: seq<Ctrl>, i: nat)
    requires Shape(w, cap, ctrl) && i < cap
    ensures i < |ctrl| && MirrorIndex(w, cap, i) < |ctrl|
  {
    MirrorClosed(w, cap, i);
  }

  /** set_ctrl keeps the layout and changes exactly one of the `cap` bytes. */
  lemma SetCtrlShape(w: nat, cap: nat, ctrl: seq<Ctrl>, i: nat, c: Ctrl, ctrl': seq<Ctrl>)
    requires Shape(w, cap, ctrl) && i < cap && c != Sentinel
    requires MirrorIndex(w, cap, i) < |ctrl| && ctrl' == SetCtrl(w, cap, ctrl, i, c)
    ensures Shape(w, cap, ctrl')
    ensures ctrl'[..cap] == ctrl[..cap][i := c]
    ensures forall p :: 0 <= p < cap + w ==> ctrl'[p] == if p == i || p == i + cap + 1 then c else ctrl[p]
  {
    MirrorClosed(w, cap, i);
  }

  /** An unaligned group read equals the circular read of the table. */
  lemma CircularRead(w: nat, cap: nat, ctrl: seq<Ctrl>, off: nat, j: nat)
    requires Shape(w, cap, ctrl) && cap + 1 >= w && off <= cap && j < w
    ensures ctrl[off + j] == ctrl[(off + j) % (cap + 1)]
  {
    if off + j <= cap { ModUnique(off + j, cap + 1, 0, off + j); }
    else { ModUnique(off + j, cap + 1, 1, off + j - cap - 1); }
  }

  ghost predicate NoEmptyAt(w: nat, ctrl: seq<Ctrl>, off: nat) {
    forall p :: off <= p < off + w && p < |ctrl| ==> ctrl[p] != Empty
  }

  ghost predicate NoHoleAt(w: nat, ctrl: seq<Ctrl>, off: nat) {
    forall p :: off <= p < off + w && p < |ctrl| ==> !IsHole(ctrl[p])
  }

  /** A covered slot is seen by a group read at `off`. */
  lemma CoveredIsRead(w: nat, cap: nat, ctrl: seq<Ctrl>, off: nat, i: nat) returns (p: nat)
    requires Shape(w, cap, ctrl) && off <= cap && i < cap && Covers(w, cap + 1, off, i)
    ensures off <= p < off + w && (p == i || p == i + cap + 1) && ctrl[p] == ctrl[i]
  {
    if cap + 1 < w { SmallCapacity(w, cap); }
    p := if off <= i < off + w then i else i + cap + 1;
  }

  /** A full byte seen by a group read belongs to a slot of the table that the window covers. */
  lemma ReadIsSlot(w: nat, cap: nat, ctrl: seq<Ctrl>, off: nat, p: nat)
    requires Shape(w, cap, ctrl) && off <= cap && off <= p < off + w
    requires ctrl[p].Full? || ctrl[p].Deleted? || (ctrl[p].Empty? && cap + 1 >= w)
    ensures p % (cap + 1) < cap && ctrl[p % (cap + 1)] == ctrl[p]
    ensures Covers(w, cap + 1, off, p % (cap + 1))
  {
    if p <= cap { ModUnique(p, cap + 1, 0, p); }
    else { ModUnique(p, cap + 1, 1, p - cap - 1); }
  }

  // -------------------------------------------------------------- reachability

  /** Offset of the k-th probe window. */
  function Off(w: nat, cap: nat, h1: nat, k: nat): (r: nat)
    ensures r <= cap
  {
    Offset(h1, w, cap + 1, k)
  }

  /** The k-th probe window of h1 covers slot i and no earlier window holds an Empty byte,
      so a lookup gets as far as slot i. */
  ghost predicate ReachVia(w: nat, cap: nat, ctrl: seq<Ctrl>, h1: nat, i: nat, k: nat)
    requires w > 0
  {
    && k < Groups(w, cap + 1)
    && Covers(w, cap + 1, Off(w, cap, h1, k), i)
    && forall k' :: 0 <= k' < k ==> NoEmptyAt(w, ctrl, Off(w, cap, h1, k'))
  }

  ghost predicate Reach(w: nat, cap: nat, ctrl: seq<Ctrl>, h1: nat, i: nat)
    requires w > 0
  {
    exists k :: 0 <= k && ReachVia(w, cap, ctrl, h1, i, k)
  }

  /** Stronger: the earlier windows hold no Deleted byte either. */
  ghost predicate SolidVia(w: nat, cap: nat, ctrl: seq<Ctrl>, h1: nat, i: nat, k: nat)
    requires w > 0
  {
    && k < Groups(w, cap + 1)
    && Covers(w, cap + 1, Off(w, cap, h1, k), i)
    && forall k' :: 0 <= k' < k ==> NoHoleAt(w, ctrl, Off(w, cap, h1, k'))
  }

  ghost predicate Solid(w: nat, cap: nat, ctrl: seq<Ctrl>, h1: nat, i: nat)
    requires w > 0
  {
    exists k :: 0 <= k && SolidVia(w, cap, ctrl, h1, i, k)
  }

  lemma SolidIsReach(w: nat, cap: nat, ctrl: seq<Ctrl>, h1: nat, i: nat)
    requires w > 0 && Solid(w, cap, ctrl, h1, i)
    ensures Reach(w, cap, ctrl, h1, i)
  {
    var k :| 0 <= k && SolidVia(w, cap, ctrl, h1, i, k);
    assert ReachVia(w, cap, ctrl, h1, i, k);
  }

  /** A probe meets every slot: some window covers it. */
  lemma SomeWindowCovers(w: nat, cap: nat, h1: nat, i: nat) returns (k: nat)
    requires (w == 8 || w == 16) && IsCapacity(cap) && i <= cap
    ensures k < Groups(w, cap + 1) && Covers(w, cap + 1, Off(w, cap, h1, k), i)
  {
    if cap + 1 < w {
      k := 0;
    } else {
      var e := LargeCapacity(w, cap);
      k := WindowsPartition(h1, w, e, i);
    }
  }

  /** In a small table every group read ends in an Empty padding byte. */
  lemma SmallSeesEmpty(w: nat, cap: nat, ctrl: seq<Ctrl>, off: nat)
    requires Shape(w, cap, ctrl) && cap + 1 < w && off <= cap
    ensures ctrl[2 * cap + 1] == Empty && off <= 2 * cap + 1 < off + w
    ensures ctrl[off + w - 1] == Empty
  {
    SmallCapacity(w, cap);
  }

  /** Search loops end: some window within the first Groups(..) holds an Empty byte. */
  lemma ProbeSeesEmpty(w: nat, cap: nat, ctrl: seq<Ctrl>, h1: nat) returns (k: nat)
    requires Shape(w, cap, ctrl)
    requires cap + 1 >= w ==> exists i :: 0 <= i < cap && ctrl[i] == Empty
    ensures k < Groups(w, cap + 1) && !NoEmptyAt(w, ctrl, Off(w, cap, h1, k))
  {
    if cap + 1 < w {
      k := 0;
      SmallSeesEmpty(w, cap, ctrl, Off(w, cap, h1, 0));
    } else {
      var i :| 0 <= i < cap && ctrl[i] == Empty;
      k := SomeWindowCovers(w, cap, h1, i);
      var p := CoveredIsRead(w, cap, ctrl, Off(w, cap, h1, k), i);
    }
  }

  lemma ProbeSeesHole(w: nat, cap: nat, ctrl: seq<Ctrl>, h1: nat) returns (k: nat)
    requires Shape(w, cap, ctrl)
    requires cap + 1 >= w ==> exists i :: 0 <= i < cap && IsHole(ctrl[i])
    ensures k < Groups(w, cap + 1) && !NoHoleAt(w, ctrl, Off(w, cap, h1, k))
  {
    if cap + 1 < w {
      k := 0;
      SmallSeesEmpty(w, cap, ctrl, Off(w, cap, h1, 0));
    } else {
      var i :| 0 <= i < cap && IsHole(ctrl[i]);
      k := SomeWindowCovers(w, cap, h1, i);
      var p := CoveredIsRead(w, cap, ctrl, Off(w, cap, h1, k), i);
    }
  }
}
