/** The invariant of the Swiss table and its preservation by insertion, erasure and in-place rehash. */
module TableInv {
  import opened Options
  import opened Group
  import opened Probe
  import opened Table

  ghost predicate Distinct<K>(slots: seq<Option<K>>) {
    forall i, j :: 0 <= i < j < |slots| && slots[i].Some? && slots[j].Some? ==> slots[i] != slots[j]
  }

  /** The set of elements that the slots hold. */
  ghost function Model<K>(slots: seq<Option<K>>): set<K> {
    set i | 0 <= i < |slots| && slots[i].Some? :: slots[i].value
  }

  /** A full slot holds an element whose H2 is in the control byte and which a lookup reaches;
      any other slot is raw storage. */
  ghost predicate SlotOk<K>(w: nat, cap: nat, ctrl: seq<Ctrl>, slots: seq<Option<K>>, hash: K -> HashVal, i: nat)
    requires w > 0 && i < |ctrl| && i < |slots|
  {
    if ctrl[i].Full? then
      && slots[i].Some?
      && ctrl[i].h2 == hash(slots[i].value).h2
      && Reach(w, cap, ctrl, hash(slots[i].value).h1, i)
    else slots[i].None?
  }

  ghost predicate Inv<K>(w: nat, cap: nat, ctrl: seq<Ctrl>, slots: seq<Option<K>>, hash: K -> HashVal) {
    && Shape(w, cap, ctrl)
    && |slots| == cap
    && Distinct(slots)
    && forall i :: 0 <= i < cap ==> SlotOk(w, cap, ctrl, slots, hash, i)
  }

  // -------------------------------------------------------------- insertion and erasure

  /** Reachability survives any update that turns no non-empty byte into Empty. */
  lemma ReachMonotone(w: nat, cap: nat, ctrl: seq<Ctrl>, ctrl': seq<Ctrl>, h1: nat, i: nat)
    requires w > 0 && cap + w <= |ctrl| == |ctrl'|
    requires forall p :: 0 <= p < cap + w && ctrl'[p] == Empty ==> ctrl[p] == Empty
    requires Reach(w, cap, ctrl, h1, i)
    ensures Reach(w, cap, ctrl', h1, i)
  {
    var k :| 0 <= k && ReachVia(w, cap, ctrl, h1, i, k);
    assert ReachVia(w, cap, ctrl', h1, i, k);
  }

  lemma InsertInv<K>(w: nat, cap: nat, ctrl: seq<Ctrl>, slots: seq<Option<K>>, hash: K -> HashVal,
                     x: K, i: nat, ctrl': seq<Ctrl>, slots': seq<Option<K>>)
    requires Inv(w, cap, ctrl, slots, hash)
    requires i < cap && IsHole(ctrl[i]) && x !in Model(slots) && Solid(w, cap, ctrl, hash(x).h1, i)
    requires MirrorIndex(w, cap, i) < |ctrl| && ctrl' == SetCtrl(w, cap, ctrl, i, Full(hash(x).h2))
    requires slots' == slots[i := Some(x)]
    ensures Inv(w, cap, ctrl', slots', hash)
    ensures Model(slots') == Model(slots) + {x}
  {
    SetCtrlShape(w, cap, ctrl, i, Full(hash(x).h2), ctrl');
    SolidIsReach(w, cap, ctrl, hash(x).h1, i);
    forall j | 0 <= j < cap ensures SlotOk(w, cap, ctrl', slots', hash, j) {
      assert SlotOk(w, cap, ctrl, slots, hash, j);
      if ctrl'[j].Full? {
        ReachMonotone(w, cap, ctrl, ctrl', hash(slots'[j].value).h1, j);
      }
    }
    ModelUpdate(slots, i, Some(x));
    assert SlotOk(w, cap, ctrl, slots, hash, i);
    forall j | 0 <= j < cap && slots[j].Some? ensures slots[j] != Some(x) {
      assert slots[j].value in Model(slots);
    }
  }

  /** Effect of overwriting one slot on the set of elements. */
  lemma ModelUpdate<K>(slots: seq<Option<K>>, i: nat, v: Option<K>)
    requires i < |slots| && Distinct(slots)
    ensures Model(slots[i := v]) ==
            Model(slots) - (if slots[i].Some? then {slots[i].value} else {}) + (if v.Some? then {v.value} else {})
  {
    var s := slots[i := v];
    forall x | x in Model(slots) && !(slots[i].Some? && slots[i].value == x) ensures x in Model(s) {
      var j :| 0 <= j < |slots| && slots[j].Some? && slots[j].value == x;
      assert s[j] == slots[j];
    }
    if v.Some? { assert s[i] == v; }
    forall x | x in Model(s) ensures x in Model(slots) - (if slots[i].Some? then {slots[i].value} else {})
                                        || (v.Some? && x == v.value) {
      var j :| 0 <= j < |s| && s[j].Some? && s[j].value == x;
      if j != i { assert slots[j] == s[j]; }
    }
  }

  /** Every probe window that covers slot i holds an Empty byte, so no lookup ever went past it. */
  ghost predicate NeverFull(w: nat, cap: nat, ctrl: seq<Ctrl>, i: nat) {
    forall off :: 0 <= off <= cap && Covers(w, cap + 1, off, i) ==> !NoEmptyAt(w, ctrl, off)
  }

  lemma ReachAfterErase(w: nat, cap: nat, ctrl: seq<Ctrl>, ctrl': seq<Ctrl>, i: nat, c: Ctrl, h1: nat, j: nat)
    requires Shape(w, cap, ctrl) && |ctrl'| == |ctrl| && i < cap && ctrl[i].Full?
    requires forall p :: 0 <= p < cap + w ==> ctrl'[p] == if p == i || p == i + cap + 1 then c else ctrl[p]
    requires c == Empty ==> NeverFull(w, cap, ctrl, i)
    requires Reach(w, cap, ctrl, h1, j)
    ensures Reach(w, cap, ctrl', h1, j)
  {
    if c != Empty {
      ReachMonotone(w, cap, ctrl, ctrl', h1, j);
    } else {
      var k :| 0 <= k && ReachVia(w, cap, ctrl, h1, j, k);
      forall k' | 0 <= k' < k ensures NoEmptyAt(w, ctrl', Off(w, cap, h1, k')) {
        assert NoEmptyAt(w, ctrl, Off(w, cap, h1, k'));
        assert !Covers(w, cap + 1, Off(w, cap, h1, k'), i);
      }
      assert ReachVia(w, cap, ctrl', h1, j, k);
    }
  }

  lemma EraseInv<K>(w: nat, cap: nat, ctrl: seq<Ctrl>, slots: seq<Option<K>>, hash: K -> HashVal,
                    i: nat, c: Ctrl, ctrl': seq<Ctrl>, slots': seq<Option<K>>)
    requires Inv(w, cap, ctrl, slots, hash)
    requires i < cap && ctrl[i].Full? && IsHole(c) && (c == Empty ==> NeverFull(w, cap, ctrl, i))
    requires MirrorIndex(w, cap, i) < |ctrl| && ctrl' == SetCtrl(w, cap, ctrl, i, c)
    requires slots' == slots[i := None]
    ensures Inv(w, cap, ctrl', slots', hash)
    ensures slots[i].Some? && Model(slots') == Model(slots) - {slots[i].value}
  {
    SetCtrlShape(w, cap, ctrl, i, c, ctrl');
    assert SlotOk(w, cap, ctrl, slots, hash, i);
    forall j | 0 <= j < cap ensures SlotOk(w, cap, ctrl', slots', hash, j) {
      assert SlotOk(w, cap, ctrl, slots, hash, j);
      if ctrl'[j].Full? {
        ReachAfterErase(w, cap, ctrl, ctrl', i, c, hash(slots[j].value).h1, j);
      }
    }
    ModelUpdate(slots, i, None);
  }

  // -------------------------------------------------------------- the test made by erase_meta_only

  /** Group that ends just before slot i: (index - kWidth) & capacity. */
  function BeforeIndex(w: nat, cap: nat, i: nat): (r: nat)
    ensures r <= cap
  {
    (i - w) % (cap + 1)
  }

  /** The counting test of erase_meta_only. */
  predicate WasNeverFull(w: nat, cap: nat, ctrl: seq<Ctrl>, i: nat)
    requires w > 0 && i <= cap && cap + w <= |ctrl|
  {
    var after := FirstEmpty(ctrl[i..i + w]);
    var before := LastEmpty(ctrl[BeforeIndex(w, cap, i)..BeforeIndex(w, cap, i) + w]);
    after < w && before < w && after + before < w
  }

  /** Circular read at a signed distance. */
  function CircAt(cap: nat, ctrl: seq<Ctrl>, x: int): Ctrl
    requires cap < |ctrl| && -(cap + 1) <= x < 2 * (cap + 1)
  {
    if x < 0 then ctrl[x + cap + 1] else if x <= cap then ctrl[x] else ctrl[x - cap - 1]
  }

  /** A group read at physical position p is a circular read, shifted by 0 or cap + 1. */
  lemma ReadCirc(w: nat, cap: nat, ctrl: seq<Ctrl>, p: nat, s: nat)
    requires Shape(w, cap, ctrl) && cap + 1 >= w && p < cap + w && (s == 0 || s == cap + 1)
    ensures ctrl[p] == CircAt(cap, ctrl, p - s)
  {}

  /** FirstEmpty of the group at slot i: distance to the nearest Empty byte ahead. */
  lemma NearestAfter(w: nat, cap: nat, ctrl: seq<Ctrl>, i: nat, after: nat)
    requires Shape(w, cap, ctrl) && cap + 1 >= w && i < cap
    requires after == FirstEmpty(ctrl[i..i + w])
    ensures after <= w
    ensures forall x :: i <= x < i + after ==> CircAt(cap, ctrl, x) != Empty
    ensures after < w ==> CircAt(cap, ctrl, i + after) == Empty
  {
    var g := ctrl[i..i + w];
    forall x | i <= x < i + w ensures CircAt(cap, ctrl, x) == g[x - i] {
      ReadCirc(w, cap, ctrl, x, 0);
    }
  }

  lemma BeforeClosed(w: nat, cap: nat, i: nat)
    requires w <= cap + 1 && i <= cap
    ensures BeforeIndex(w, cap, i) == if i >= w then i - w else i - w + cap + 1
  {
    if i >= w { Arith.ModUnique(i - w, cap + 1, 0, i - w); }
    else { Arith.ModUnique(i - w, cap + 1, -1, i - w + cap + 1); }
  }

  /** The group before slot i, byte by byte. */
  lemma GroupBefore(w: nat, cap: nat, ctrl: seq<Ctrl>, i: nat, g: seq<Ctrl>, x: int)
    requires Shape(w, cap, ctrl) && cap + 1 >= w && i < cap && i - w <= x < i
    requires g == ctrl[BeforeIndex(w, cap, i)..BeforeIndex(w, cap, i) + w]
    ensures CircAt(cap, ctrl, x) == g[x - i + w]
  {
    BeforeClosed(w, cap, i);
    var s := if i >= w then 0 else cap + 1;
    ReadCirc(w, cap, ctrl, x + s, s);
  }

  /** LastEmpty of the group before slot i: distance to the nearest Empty byte behind. */
  lemma NearestBefore(w: nat, cap: nat, ctrl: seq<Ctrl>, i: nat, g: seq<Ctrl>, before: nat)
    requires Shape(w, cap, ctrl) && cap + 1 >= w && i < cap
    requires g == ctrl[BeforeIndex(w, cap, i)..BeforeIndex(w, cap, i) + w]
    requires before == LastEmpty(g)
    ensures before <= w
    ensures forall x :: i - before <= x < i ==> CircAt(cap, ctrl, x) != Empty
    ensures before < w ==> CircAt(cap, ctrl, i - 1 - before) == Empty
  {
    forall x | i - w <= x < i ensures CircAt(cap, ctrl, x) == g[x - i + w] {
      GroupBefore(w, cap, ctrl, i, g, x);
    }
  }

  /** A window that covers slot i starts at most w - 1 positions before it on the circle. */
  lemma WindowShift(w: nat, cap: nat, off: nat, i: nat) returns (s: nat)
    requires w <= cap + 1 && i <= cap && off <= cap && Covers(w, cap + 1, off, i)
    ensures (s == 0 || s == cap + 1) && off - s <= i < off - s + w
  {
    s := if off <= i then 0 else cap + 1;
  }

  lemma NeverFullIfClose(w: nat, cap: nat, ctrl: seq<Ctrl>, i: nat, after: nat, before: nat, off: nat)
    requires Shape(w, cap, ctrl) && cap + 1 >= w && i < cap && off <= cap && Covers(w, cap + 1, off, i)
    requires after < w && before < w && after + before < w
    requires CircAt(cap, ctrl, i + after) == Empty && CircAt(cap, ctrl, i - 1 - before) == Empty
    ensures !NoEmptyAt(w, ctrl, off)
  {
    var s := WindowShift(w, cap, off, i);
    var x := if i + after < off - s + w then i + after else i - 1 - before;
    assert off <= x + s < off + w;
    ReadCirc(w, cap, ctrl, x + s, s);
  }

  lemma FullWindow(w: nat, cap: nat, ctrl: seq<Ctrl>, i: nat, after: nat, before: nat) returns (off: nat)
    requires Shape(w, cap, ctrl) && cap + 1 >= w && i < cap && after <= w && before <= w && after >= 1
    requires after == w || before == w || after + before >= w
    requires forall x :: i <= x < i + after ==> CircAt(cap, ctrl, x) != Empty
    requires forall x :: i - before <= x < i ==> CircAt(cap, ctrl, x) != Empty
    ensures off <= cap && Covers(w, cap + 1, off, i) && NoEmptyAt(w, ctrl, off)
  {
    var d := if before < w then before else w - 1;
    if after == w { d := 0; }
    var s := if d <= i then 0 else cap + 1;
    off := i - d + s;
    forall p | off <= p < off + w && p < |ctrl| ensures ctrl[p] != Empty {
      ReadCirc(w, cap, ctrl, p, s);
    }
  }

  /** An Empty byte close ahead and one close behind: no window over the slot is full. */
  lemma CloseIsNeverFull(w: nat, cap: nat, ctrl: seq<Ctrl>, i: nat, after: nat, before: nat)
    requires Shape(w, cap, ctrl) && cap + 1 >= w && i < cap
    requires after < w && before < w && after + before < w
    requires CircAt(cap, ctrl, i + after) == Empty && CircAt(cap, ctrl, i - 1 - before) == Empty
    ensures NeverFull(w, cap, ctrl, i)
  {
    forall off | 0 <= off <= cap && Covers(w, cap + 1, off, i) ensures !NoEmptyAt(w, ctrl, off) {
      NeverFullIfClose(w, cap, ctrl, i, after, before, off);
    }
  }

  /** The nearest Empty bytes w or more apart: some window over the slot is full. */
  lemma FarIsFull(w: nat, cap: nat, ctrl: seq<Ctrl>, i: nat, after: nat, before: nat)
    requires Shape(w, cap, ctrl) && cap + 1 >= w && i < cap && after <= w && before <= w && after >= 1
    requires after == w || before == w || after + before >= w
    requires forall x :: i <= x < i + after ==> CircAt(cap, ctrl, x) != Empty
    requires forall x :: i - before <= x < i ==> CircAt(cap, ctrl, x) != Empty
    ensures !NeverFull(w, cap, ctrl, i)
  {
    var off := FullWindow(w, cap, ctrl, i, after, before);
  }

  lemma WasNeverFullSound(w: nat, cap: nat, ctrl: seq<Ctrl>, i: nat)
    requires Shape(w, cap, ctrl) && cap + 1 >= w && i < cap && WasNeverFull(w, cap, ctrl, i)
    ensures NeverFull(w, cap, ctrl, i)
  {
    var behind := ctrl[BeforeIndex(w, cap, i)..BeforeIndex(w, cap, i) + w];
    var after, before := FirstEmpty(ctrl[i..i + w]), LastEmpty(behind);
    NearestAfter(w, cap, ctrl, i, after);
    NearestBefore(w, cap, ctrl, i, behind, before);
    CloseIsNeverFull(w, cap, ctrl, i, after, before);
  }

  lemma WasNeverFullComplete(w: nat, cap: nat, ctrl: seq<Ctrl>, i: nat)
    requires Shape(w, cap, ctrl) && cap + 1 >= w && i < cap && ctrl[i].Full? && !WasNeverFull(w, cap, ctrl, i)
    ensures !NeverFull(w, cap, ctrl, i)
  {
    var behind := ctrl[BeforeIndex(w, cap, i)..BeforeIndex(w, cap, i) + w];
    var after, before := FirstEmpty(ctrl[i..i + w]), LastEmpty(behind);
    assert ctrl[i..i + w][0] == ctrl[i];
    NearestAfter(w, cap, ctrl, i, after);
    NearestBefore(w, cap, ctrl, i, behind, before);
    FarIsFull(w, cap, ctrl, i, after, before);
  }

  /** erase writes Empty exactly when every w-wide circular window that contains the slot holds
      another Empty byte. */
  lemma WasNeverFullExact(w: nat, cap: nat, ctrl: seq<Ctrl>, i: nat)
    requires Shape(w, cap, ctrl) && cap + 1 >= w && i < cap && ctrl[i].Full?
    ensures WasNeverFull(w, cap, ctrl, i) <==> NeverFull(w, cap, ctrl, i)
  {
    if WasNeverFull(w, cap, ctrl, i) {
      WasNeverFullSound(w, cap, ctrl, i);
    } else {
      WasNeverFullComplete(w, cap, ctrl, i);
    }
  }

  /** In a small table erase always writes Empty, and that is always safe. */
  lemma WasNeverFullSmall(w: nat, cap: nat, ctrl: seq<Ctrl>, i: nat)
    requires Shape(w, cap, ctrl) && cap + 1 < w && i < cap && ctrl[i].Full?
    ensures WasNeverFull(w, cap, ctrl, i) && NeverFull(w, cap, ctrl, i)
  {
    SmallCapacity(w, cap);
    var ib := BeforeIndex(w, cap, i);
    assert ib == i;
    SmallSeesEmpty(w, cap, ctrl, i);
    var g := ctrl[i..i + w];
    assert g[2 * cap + 1 - i] == ctrl[2 * cap + 1] && g[w - 1] == ctrl[i + w - 1];
    forall off | 0 <= off <= cap ensures !NoEmptyAt(w, ctrl, off) {
      SmallSeesEmpty(w, cap, ctrl, off);
    }
  }
}
