/** raw_hash_set: the Swiss table, updated in place, proved to behave as a mathematical set. */
module RawHashSet {
  import opened Options
  import opened Capacity
  import opened Group
  import opened GroupWords
  import opened Probe
  import opened Table
  import opened TableInv
  import opened TableRehash

  /** What find_first_non_full returns: the first hole on the probe path, or, in a small table
      that is completely full, the position of the sentinel. */
  ghost predicate IsTarget(w: nat, cap: nat, ctrl: seq<Ctrl>, h1: nat, t: nat, k: nat)
    requires w > 0 && cap < |ctrl|
  {
    if t < cap then IsHole(ctrl[t]) && SolidVia(w, cap, ctrl, h1, t, k)
    else t == cap && cap + 1 < w && forall i :: 0 <= i < cap ==> !IsHole(ctrl[i])
  }

  /** p is the first hole seen by the group read at off. */
  ghost predicate FirstHoleAt(w: nat, ctrl: seq<Ctrl>, off: nat, p: nat) {
    && off <= p < off + w && p < |ctrl|
    && IsHole(ctrl[p])
    && forall q :: off <= q < p ==> !IsHole(ctrl[q])
  }

  /** The first k probe windows are full. */
  ghost predicate FullBefore(w: nat, cap: nat, ctrl: seq<Ctrl>, h1: nat, k: nat) {
    forall k' :: 0 <= k' < k ==> NoHoleAt(w, ctrl, Off(w, cap, h1, k'))
  }

  lemma FirstHoleTarget(w: nat, cap: nat, ctrl: seq<Ctrl>, h1: nat, k: nat, p: nat)
    requires Shape(w, cap, ctrl) && k < Groups(w, cap + 1)
    requires FullBefore(w, cap, ctrl, h1, k) && FirstHoleAt(w, ctrl, Off(w, cap, h1, k), p)
    ensures IsTarget(w, cap, ctrl, h1, p % (cap + 1), k)
  {
    var off := Off(w, cap, h1, k);
    if cap + 1 >= w || ctrl[p].Deleted? {
      ReadIsSlot(w, cap, ctrl, off, p);
    } else {
      SmallCapacity(w, cap);
      if p <= 2 * cap {
        ReadSmall(w, cap, ctrl, p);
      } else {
        assert !IsHole(ctrl[2 * cap + 1]) || p == 2 * cap + 1;
        Arith.ModUnique(2 * cap + 1, cap + 1, 1, cap);
        forall i | 0 <= i < cap ensures !IsHole(ctrl[i]) {
          var q := CoveredIsRead(w, cap, ctrl, off, i);
        }
      }
    }
  }

  lemma ReadSmall(w: nat, cap: nat, ctrl: seq<Ctrl>, p: nat)
    requires Shape(w, cap, ctrl) && cap + 1 < w && p <= 2 * cap && IsHole(ctrl[p])
    ensures p % (cap + 1) < cap && ctrl[p % (cap + 1)] == ctrl[p]
  {
    SmallCapacity(w, cap);
    if p <= cap { Arith.ModUnique(p, cap + 1, 0, p); } else { Arith.ModUnique(p, cap + 1, 1, p - cap - 1); }
  }

  /** A small table without holes has used up its growth. */
  lemma FullSmallTable(w: nat, cap: nat, ctrl: seq<Ctrl>, size: nat, growthLeft: nat)
    requires Shape(w, cap, ctrl) && Accounts(w, cap, ctrl, size, growthLeft) && cap + 1 < w
    requires forall i :: 0 <= i < cap ==> !IsHole(ctrl[i])
    ensures growthLeft == 0
  {
    GrowthLeavesRoom(w, cap);
    TallyTotal(ctrl[..cap]);
    TallyZero(ctrl[..cap], KEmpty);
    TallyZero(ctrl[..cap], KDeleted);
  }

  /** With growth left, or a tombstone as target, the target is a real slot. */
  lemma TargetInTable(w: nat, cap: nat, ctrl: seq<Ctrl>, size: nat, growthLeft: nat, h1: nat, t: nat, k: nat)
    requires Shape(w, cap, ctrl) && Accounts(w, cap, ctrl, size, growthLeft) && IsTarget(w, cap, ctrl, h1, t, k)
    requires growthLeft > 0 || (t < |ctrl| && ctrl[t] == Deleted)
    ensures t < cap && IsHole(ctrl[t]) && Solid(w, cap, ctrl, h1, t)
  {
    if t >= cap {
      FullSmallTable(w, cap, ctrl, size, growthLeft);
    } else {
      assert SolidVia(w, cap, ctrl, h1, t, k);
    }
  }

  lemma GroupHoles(w: nat, ctrl: seq<Ctrl>, off: nat)
    requires off + w <= |ctrl|
    ensures var j := FirstHole(ctrl[off..off + w]);
            j <= w && if j < w then FirstHoleAt(w, ctrl, off, off + j) else NoHoleAt(w, ctrl, off)
  {
    var g := ctrl[off..off + w];
    forall q | off <= q < off + w ensures ctrl[q] == g[q - off] {}
  }

  lemma GroupEmpties(w: nat, ctrl: seq<Ctrl>, off: nat)
    requires off + w <= |ctrl|
    ensures FirstEmpty(ctrl[off..off + w]) < w <==> !NoEmptyAt(w, ctrl, off)
  {
    var g := ctrl[off..off + w];
    forall q | off <= q < off + w ensures ctrl[q] == g[q - off] {}
    var j := FirstEmpty(g);
    if j < w { assert ctrl[off + j] == Empty; }
  }

  lemma FullExtend(w: nat, cap: nat, ctrl: seq<Ctrl>, h1: nat, k: nat)
    requires FullBefore(w, cap, ctrl, h1, k) && NoHoleAt(w, ctrl, Off(w, cap, h1, k))
    ensures FullBefore(w, cap, ctrl, h1, k + 1)
  {}

  /** probe_seq::next keeps index = w * k and offset = k-th probe offset. */
  lemma NextIndex(h1: nat, w: nat, cap: nat, k: nat)
    ensures w * k + w == w * (k + 1)
    ensures (Off(w, cap, h1, k) + (w * k + w)) % (cap + 1) == Off(w, cap, h1, k + 1)
  {
    OffsetNext(h1, w, cap + 1, k);
  }

  /** No slot covered by the window at off holds the key. */
  ghost predicate Missed<K(!new)>(w: nat, cap: nat, slots: seq<Option<K>>, off: nat, key: K) {
    forall i :: 0 <= i < |slots| && Covers(w, cap + 1, off, i) ==> slots[i] != Some(key)
  }

  /** The first k probe windows neither stop the search nor hold the key. */
  ghost predicate PassedBefore<K(!new)>(w: nat, cap: nat, ctrl: seq<Ctrl>, slots: seq<Option<K>>, h1: nat, key: K,
                                        k: nat) {
    forall k' :: 0 <= k' < k ==>
      NoEmptyAt(w, ctrl, Off(w, cap, h1, k')) && Missed(w, cap, slots, Off(w, cap, h1, k'), key)
  }

  lemma PassedExtend<K(!new)>(w: nat, cap: nat, ctrl: seq<Ctrl>, slots: seq<Option<K>>, h1: nat, key: K, k: nat)
    requires PassedBefore(w, cap, ctrl, slots, h1, key, k)
    requires NoEmptyAt(w, ctrl, Off(w, cap, h1, k)) && Missed(w, cap, slots, Off(w, cap, h1, k), key)
    ensures PassedBefore(w, cap, ctrl, slots, h1, key, k + 1)
  {}

  /** The element behind every byte of [lo, hi) that holds H2 was compared with the key and differs. */
  ghost predicate Compared<K(!new)>(cap: nat, ctrl: seq<Ctrl>, slots: seq<Option<K>>, h2: bv7, key: K, lo: nat,
                                    hi: nat) {
    forall p :: lo <= p < hi && p < |ctrl| && ctrl[p] == Full(h2) ==>
      p % (cap + 1) < |slots| && slots[p % (cap + 1)] != Some(key)
  }

  /** The capacity after an insertion: the storage is replaced only when no growth is left, and then by one of
      twice the size unless half of the growth limit is free. */
  ghost predicate Grown(w: nat, cap: nat, size: nat, growthLeft: nat, cap': nat) {
    && (growthLeft > 0 || (cap > 0 && size <= CapacityToGrowth(w, cap) / 2) ==> cap' == cap)
    && (cap' == cap || cap' == 2 * cap + 1)
  }

  /** The capacity that rehash(n) leaves: rehash(0) fits the size, and other requests only grow. */
  ghost function RehashCapacity(n: nat, size: nat, cap: nat): nat {
    var m := NormalizeCapacity(if n > size then n else size);
    if n == 0 then (if size == 0 then 0 else m) else if m > cap then m else cap
  }

  /** The least valid capacity from cap upwards whose growth limit is at least n. */
  ghost predicate LeastFor(w: nat, n: nat, cap: nat, cap': nat) {
    && cap <= cap' && n <= CapacityToGrowth(w, cap')
    && forall c :: cap <= c && IsCapacity(c) && n <= CapacityToGrowth(w, c) ==> cap' <= c
  }

  lemma ReserveCapacity(w: nat, n: nat, size: nat, cap: nat, cap': nat)
    requires (w == 8 || w == 16) && n > 0 && size <= cap && IsCapacity(cap)
    requires cap' == RehashCapacity(GrowthToLowerboundCapacity(w, n), size, cap)
    ensures LeastFor(w, n, cap, cap')
  {
    var lower := GrowthToLowerboundCapacity(w, n);
    ReserveLeast(w, n);
    NormalizeLeast(lower);
    NormalizeLeast(size);
    if cap > 0 && NormalizeCapacity(lower) <= cap { GrowthMonotone(w, NormalizeCapacity(lower), cap); }
  }

  /** The mask of Match: all bytes that hold H2 are in it, and only full bytes. */
  ghost predicate Candidates(ctrl: seq<Ctrl>, h2: bv7, off: nat, mask: seq<bool>)
    requires off + |mask| <= |ctrl|
  {
    forall j :: 0 <= j < |mask| ==> (ctrl[off + j] == Full(h2) ==> mask[j]) && (mask[j] ==> ctrl[off + j].Full?)
  }

  /** A candidate has a slot behind it. */
  lemma CandidateSlot(w: nat, cap: nat, ctrl: seq<Ctrl>, h2: bv7, off: nat, mask: seq<bool>, j: nat)
    requires Shape(w, cap, ctrl) && off <= cap && |mask| == w && j < w && Candidates(ctrl, h2, off, mask) && mask[j]
    ensures (off + j) % (cap + 1) < cap && ctrl[(off + j) % (cap + 1)].Full?
  {
    ReadIsSlot(w, cap, ctrl, off, off + j);
  }

  /** A byte that is no candidate needs no comparison; a candidate needs one. */
  lemma ComparedExtend<K(!new)>(cap: nat, ctrl: seq<Ctrl>, slots: seq<Option<K>>, h2: bv7, key: K, off: nat,
                                mask: seq<bool>, j: nat)
    requires off + |mask| <= |ctrl| && j < |mask| && Candidates(ctrl, h2, off, mask)
    requires Compared(cap, ctrl, slots, h2, key, off, off + j)
    requires mask[j] ==> (off + j) % (cap + 1) < |slots| && slots[(off + j) % (cap + 1)] != Some(key)
    ensures Compared(cap, ctrl, slots, h2, key, off, off + j + 1)
  {}

  /** Comparing the elements behind every byte that holds H2 leaves no place for the key in the window. */
  lemma WindowMissed<K(!new)>(w: nat, cap: nat, ctrl: seq<Ctrl>, slots: seq<Option<K>>, hash: K -> HashVal, off: nat,
                              key: K)
    requires Inv(w, cap, ctrl, slots, hash) && off <= cap
    requires Compared(cap, ctrl, slots, hash(key).h2, key, off, off + w)
    ensures Missed(w, cap, slots, off, key)
  {
    forall i | 0 <= i < |slots| && Covers(w, cap + 1, off, i) ensures slots[i] != Some(key) {
      if slots[i] == Some(key) {
        assert SlotOk(w, cap, ctrl, slots, hash, i);
        var p := CoveredIsRead(w, cap, ctrl, off, i);
        if p == i { Arith.ModUnique(p, cap + 1, 0, i); } else { Arith.ModUnique(p, cap + 1, 1, i); }
      }
    }
  }

  /** A slot that the probe path reaches is in a window that was searched, or beyond one with an Empty byte. */
  lemma NotWhereReached<K(!new)>(w: nat, cap: nat, ctrl: seq<Ctrl>, slots: seq<Option<K>>, h1: nat, key: K, k: nat,
                                 i: nat, n: nat)
    requires Shape(w, cap, ctrl) && i < |slots| && ReachVia(w, cap, ctrl, h1, i, n)
    requires PassedBefore(w, cap, ctrl, slots, h1, key, k) && Missed(w, cap, slots, Off(w, cap, h1, k), key)
    requires !NoEmptyAt(w, ctrl, Off(w, cap, h1, k))
    ensures slots[i] != Some(key)
  {}

  /** A search that stops at a window with an Empty byte may conclude that the key is absent. */
  lemma StopIsSound<K(!new)>(w: nat, cap: nat, ctrl: seq<Ctrl>, slots: seq<Option<K>>, hash: K -> HashVal, key: K,
                             k: nat)
    requires Inv(w, cap, ctrl, slots, hash)
    requires PassedBefore(w, cap, ctrl, slots, hash(key).h1, key, k)
    requires Missed(w, cap, slots, Off(w, cap, hash(key).h1, k), key)
    requires !NoEmptyAt(w, ctrl, Off(w, cap, hash(key).h1, k))
    ensures key !in Model(slots)
  {
    forall i | 0 <= i < |slots| ensures slots[i] != Some(key) {
      assert SlotOk(w, cap, ctrl, slots, hash, i);
      if n :| 0 <= n && ReachVia(w, cap, ctrl, hash(key).h1, i, n) {
        NotWhereReached(w, cap, ctrl, slots, hash(key).h1, key, k, i, n);
      }
    }
  }

  /** Byte i becomes Empty if every window over it has another Empty byte, else a tombstone, and in a small
      table always Empty; the other bytes stay. */
  ghost predicate ByteErased(w: nat, cap: nat, ctrl: seq<Ctrl>, ctrl': seq<Ctrl>, i: nat)
    requires i < cap <= |ctrl| && cap <= |ctrl'|
  {
    && ctrl'[i] == (if NeverFull(w, cap, ctrl, i) then Empty else Deleted)
    && (cap + 1 < w ==> ctrl'[i] == Empty)
    && forall j :: 0 <= j < cap && j != i ==> ctrl'[j] == ctrl[j]
  }

  /** Everything erase_meta_only does to a table, for the byte c that its test picks. */
  lemma EraseEffect<K>(w: nat, cap: nat, ctrl: seq<Ctrl>, elems: seq<Option<K>>, hash: K -> HashVal,
                       size: nat, growthLeft: nat, i: nat, c: Ctrl, ctrl': seq<Ctrl>, elems': seq<Option<K>>)
    requires Good(w, cap, ctrl, elems, hash, size, growthLeft) && i < cap && ctrl[i].Full? && elems' == elems[i := None]
    requires c == (if WasNeverFull(w, cap, ctrl, i) then Empty else Deleted)
    requires MirrorIndex(w, cap, i) < |ctrl| && ctrl' == SetCtrl(w, cap, ctrl, i, c)
    ensures size >= 1 && Good(w, cap, ctrl', elems', hash, size - 1, growthLeft + (if c == Empty then 1 else 0))
    ensures ByteErased(w, cap, ctrl, ctrl', i)
  {
    EraseTable(w, cap, ctrl, elems, hash, size, growthLeft, i);
    SetCtrlShape(w, cap, ctrl, i, c, ctrl');
  }

  /** reset_growth_left: an unsigned 64-bit difference. */
  function GrowthLeft(limit: nat, size: nat): nat {
    if size <= limit then limit - size else (limit - size) % 0x1_0000_0000_0000_0000
  }

  class RawHashSet<K(==, !new)> {
    const w: nat
    const hash: K -> HashVal
    var ctrl: array<Ctrl>
    var slots: array<Option<K>>
    var size: nat
    var capacity: nat
    var growthLeft: nat

    ghost predicate Valid()
      reads this, ctrl, slots
    {
      Good(w, capacity, ctrl[..], slots[..], hash, size, growthLeft)
    }

    ghost function Elements(): set<K>
      reads this, slots
    {
      Model(slots[..])
    }

    /** The default constructor: no storage, the shared EmptyGroup of control bytes. */
    constructor (w: nat, hash: K -> HashVal)
      requires w == 8 || w == 16
      ensures Valid() && Elements() == {} && fresh(ctrl) && fresh(slots)
      ensures this.w == w && this.hash == hash
    {
      this.w := w;
      this.hash := hash;
      ctrl := new Ctrl[16](i => if i == 0 then Sentinel else Empty);
      slots := new Option<K>[0];
      size, capacity, growthLeft := 0, 0, 0;
      new;
      assert IsCapacity(0) by { assert 0 + 1 == Arith.Pow2(0); }
      assert ctrl[..][..capacity] == [];
    }

    /** set_ctrl: the byte and its clone. */
    method SetCtrlByte(i: nat, c: Ctrl)
      requires i < ctrl.Length && MirrorIndex(w, capacity, i) < ctrl.Length
      modifies ctrl
      ensures ctrl[..] == SetCtrl(w, capacity, old(ctrl[..]), i, c)
    {
      ctrl[i] := c;
      ctrl[(i - w) % (capacity + 1) + 1 + (w - 1) % (capacity + 1)] := c;
    }

    /** Group{ctrl_ + off}.MatchEmptyOrDeleted(): position of its lowest set bit, or w. */
    method ReadFirstHole(off: nat) returns (j: nat)
      requires (w == 8 || w == 16) && off + w <= ctrl.Length
      ensures j <= w && if j < w then FirstHoleAt(w, ctrl[..], off, off + j) else NoHoleAt(w, ctrl[..], off)
    {
      j := FindFirstHole(ctrl[off..off + w]);
      assert ctrl[off..off + w] == ctrl[..][off..off + w];
      GroupHoles(w, ctrl[..], off);
    }

    /** The probe loop of find_first_non_full. */
    method ProbeForHole(h1: nat, ghost last: nat) returns (off: nat, j: nat, ghost k: nat)
      requires (w == 8 || w == 16) && capacity + w <= ctrl.Length
      requires !NoHoleAt(w, ctrl[..], Off(w, capacity, h1, last))
      ensures k <= last && off == Off(w, capacity, h1, k) && j < w
      ensures FullBefore(w, capacity, ctrl[..], h1, k) && FirstHoleAt(w, ctrl[..], off, off + j)
    {
      var index := 0;
      off, k := h1 % (capacity + 1), 0;
      OffsetZero(h1, w, capacity + 1);
      while true
        invariant k <= last && off == Off(w, capacity, h1, k) && index == w * k
        invariant FullBefore(w, capacity, ctrl[..], h1, k)
        decreases last - k
      {
        j := ReadFirstHole(off);
        if j < w { return; }
        FullExtend(w, capacity, ctrl[..], h1, k);
        NextIndex(h1, w, capacity, k);
        index := index + w;
        off, k := (off + index) % (capacity + 1), k + 1;
      }
    }

    /** find_first_non_full: the first Empty or Deleted slot on the probe path. */
    method FindFirstNonFull(hashval: HashVal) returns (offset: nat, ghost k: nat)
      requires Shape(w, capacity, ctrl[..])
      requires capacity + 1 >= w ==> exists i :: 0 <= i < capacity && IsHole(ctrl[..][i])
      ensures offset <= capacity
              && (offset < capacity ==> IsHole(ctrl[offset]) && Solid(w, capacity, ctrl[..], hashval.h1, offset))
      ensures IsTarget(w, capacity, ctrl[..], hashval.h1, offset, k)
    {
      ghost var last := ProbeSeesHole(w, capacity, ctrl[..], hashval.h1);
      var off, j;
      off, j, k := ProbeForHole(hashval.h1, last);
      FirstHoleTarget(w, capacity, ctrl[..], hashval.h1, k, off + j);
      offset := (off + j) % (capacity + 1);
    }
  
    /** The inner loop of find_impl: compare the key with every candidate of the group. */
    method CompareCandidates(key: K, h2: bv7, off: nat, mask: seq<bool>) returns (found: bool, offset: nat)
      requires Shape(w, capacity, ctrl[..]) && slots.Length == capacity && off <= capacity && |mask| == w
      requires Candidates(ctrl[..], h2, off, mask)
      ensures found ==> offset < capacity && ctrl[offset].Full? && slots[offset] == Some(key)
      ensures !found ==> Compared(capacity, ctrl[..], slots[..], h2, key, off, off + w)
    {
      ghost var bytes, elems := ctrl[..], slots[..];
      found, offset := false, 0;
      for i := 0 to w
        invariant Compared(capacity, bytes, elems, h2, key, off, off + i)
      {
        if mask[i] {
          CandidateSlot(w, capacity, bytes, h2, off, mask, i);
          offset := (off + i) % (capacity + 1);
          if slots[offset] == Some(key) {
            found := true;
            return;
          }
        }
        ComparedExtend(capacity, bytes, elems, h2, key, off, mask, i);
      }
    }

    /** One round of find_impl: compare the candidates of the group, then look for an Empty byte. */
    method ReadGroup(key: K, h2: bv7, off: nat) returns (found: bool, offset: nat, empty: bool)
      requires Inv(w, capacity, ctrl[..], slots[..], hash) && off <= capacity && h2 == hash(key).h2
      ensures found ==> offset < capacity && ctrl[offset].Full? && slots[offset] == Some(key)
      ensures !found ==> Missed(w, capacity, slots[..], off, key)
      ensures empty <==> !NoEmptyAt(w, ctrl[..], off)
    {
      var g := ctrl[off..off + w];
      assert g == ctrl[..][off..off + w];
      var first := CountBeforeEmpty(g);
      empty := first < w;
      GroupEmpties(w, ctrl[..], off);
      var mask := Match(g, h2);
      assert forall j :: 0 <= j < w ==> ctrl[..][off + j] == g[j];
      found, offset := CompareCandidates(key, h2, off, mask);
      if !found {
        WindowMissed(w, capacity, ctrl[..], slots[..], hash, off, key);
      }
    }

    /** find_impl: true exactly on the members, with the slot that holds the key. */
    method FindImpl(key: K) returns (found: bool, offset: nat)
      requires Valid()
      ensures found <==> key in Elements()
      ensures found ==> offset < capacity && ctrl[offset].Full? && slots[offset] == Some(key)
    {
      var h := hash(key);
      ghost var bytes, elems := ctrl[..], slots[..];
      ghost var last := ValidSeesEmpty(h.h1);
      var off, index := h.h1 % (capacity + 1), 0;
      ghost var k := 0;
      OffsetZero(h.h1, w, capacity + 1);
      while true
        invariant k <= last && off == Off(w, capacity, h.h1, k) && index == w * k
        invariant PassedBefore(w, capacity, bytes, elems, h.h1, key, k)
        decreases last - k
      {
        var empty;
        found, offset, empty := ReadGroup(key, h.h2, off);
        if found {
          assert elems[offset] == Some(key);
          return;
        }
        if empty {
          StopIsSound(w, capacity, bytes, elems, hash, key, k);
          return;
        }
        PassedExtend(w, capacity, bytes, elems, h.h1, key, k);
        NextIndex(h.h1, w, capacity, k);
        index := index + w;
        off := (off + index) % (capacity + 1);
        k := k + 1;
      }
    }

    lemma ValidSeesEmpty(h1: nat) returns (k: nat)
      requires Valid()
      ensures k < Groups(w, capacity + 1) && !NoEmptyAt(w, ctrl[..], Off(w, capacity, h1, k))
    {
      if capacity + 1 >= w { HasEmptySlot(w, capacity, ctrl[..]); }
      k := ProbeSeesEmpty(w, capacity, ctrl[..], h1);
    }
  
    /** Bytes before the first Empty one from i on, and bytes after the last Empty one of the group at b. */
    method CountAround(i: nat, b: nat) returns (after: nat, before: nat)
      requires (w == 8 || w == 16) && i + w <= ctrl.Length && b + w <= ctrl.Length
      ensures after == FirstEmpty(ctrl[..][i..i + w]) && before == LastEmpty(ctrl[..][b..b + w])
    {
      assert ctrl[i..i + w] == ctrl[..][i..i + w];
      after := CountBeforeEmpty(ctrl[i..i + w]);
      assert ctrl[b..b + w] == ctrl[..][b..b + w];
      before := CountAfterEmpty(ctrl[b..b + w]);
    }

    /** The test of erase_meta_only: the run of bytes without an Empty one around the slot is shorter than a
        group. */
    method TestNeverFull(i: nat) returns (neverFull: bool)
      requires (w == 8 || w == 16) && i < capacity && capacity + w <= ctrl.Length
      ensures neverFull <==> WasNeverFull(w, capacity, ctrl[..], i)
    {
      var b := BeforeIndex(w, capacity, i);
      var after, before := CountAround(i, b);
      neverFull := after < w && before < w && after + before < w;
    }

    /** erase_meta_only, for an element that is already destroyed: the byte becomes Empty exactly when every
        window over the slot has another Empty byte, and the table is then in order without the element. */
    method EraseMetaOnly(i: nat, ghost elems: seq<Option<K>>)
      requires Good(w, capacity, ctrl[..], elems, hash, size, growthLeft) && i < capacity && ctrl[i].Full?
      requires i < |elems| && slots[..] == elems[i := None]
      modifies this`size, this`growthLeft, ctrl
      ensures Valid() && size == old(size) - 1
      ensures ByteErased(w, capacity, old(ctrl[..]), ctrl[..], i)
    {
      ghost var bytes, gone := ctrl[..], slots[..];
      SetCtrlInBounds(w, capacity, bytes, i);
      var neverFull := TestNeverFull(i);
      var c := if neverFull then Empty else Deleted;
      ghost var bytes' := SetCtrl(w, capacity, bytes, i, c);
      EraseEffect(w, capacity, bytes, elems, hash, size, growthLeft, i, c, bytes', gone);
      size, growthLeft := size - 1, growthLeft + (if neverFull then 1 else 0);
      SetCtrlByte(i, c);
      assert ctrl[..] == bytes' && slots[..] == gone;
    }

    /** erase(iterator): destroy the element, then erase_meta_only. */
    method EraseAt(i: nat)
      requires Valid() && i < capacity && ctrl[i].Full?
      modifies this`size, this`growthLeft, ctrl, slots
      ensures Valid() && old(slots[i]).Some? && Elements() == old(Elements()) - {old(slots[i].value)}
    {
      ghost var elems := slots[..];
      EraseTable(w, capacity, ctrl[..], elems, hash, size, growthLeft, i);
      slots[i] := None;
      assert slots[..] == elems[i := None];
      EraseMetaOnly(i, elems);
    }

    /** erase(key): 1 if the key was there, 0 otherwise. */
    method Erase(key: K) returns (count: nat)
      requires Valid()
      modifies this`size, this`growthLeft, ctrl, slots
      ensures Valid() && Elements() == old(Elements()) - {key}
      ensures count == if key in old(Elements()) then 1 else 0
    {
      var found, offset := FindImpl(key);
      if !found { return 0; }
      EraseAt(offset);
      count := 1;
    }
  
    /** initialize_slots: new storage, everything Empty. */
    method InitializeSlots(newCap: nat)
      requires w == 8 || w == 16
      modifies this`ctrl, this`slots, this`capacity
      ensures capacity == newCap && fresh(ctrl) && fresh(slots)
      ensures IsFresh(w, newCap, ctrl[..], slots[..])
    {
      ctrl := new Ctrl[newCap + w + 1](i => if i == newCap then Sentinel else Empty);
      slots := new Option<K>[newCap](_ => None);
      capacity := newCap;
    }

    /** One iteration of resize: place old element n in the new table. */
    method CopyElement(ghost ctrl0: seq<Ctrl>, ghost slots0: seq<Option<K>>, ghost cap0: nat, n: nat, x: K)
      requires n < cap0 <= |ctrl0| && n < |slots0| && ctrl0[n].Full? && slots0[n] == Some(x) && Distinct(slots0)
      requires Copied(w, capacity, ctrl[..], slots[..], hash, ctrl0, slots0, n)
      requires Tally(ctrl0[..cap0], KFull) <= capacity
      modifies ctrl, slots
      ensures Copied(w, capacity, ctrl[..], slots[..], hash, ctrl0, slots0, n + 1)
    {
      var h := hash(x);
      CopyHasRoom(w, capacity, ctrl[..], slots[..], hash, ctrl0, slots0, cap0, n);
      ghost var elems := slots[..];
      var t, k := FindFirstNonFull(h);
      CopyOne(w, capacity, ctrl[..], elems, hash, ctrl0, slots0, n, t);
      SetCtrlByte(t, Full(h.h2));
      slots[t] := Some(x);
      assert slots[..] == elems[t := Some(x)];
    }

    /** The copy loop of resize. */
    method CopyAll(oldCtrl: array<Ctrl>, oldSlots: array<Option<K>>, oldCap: nat)
      requires Inv(w, oldCap, oldCtrl[..], oldSlots[..], hash) && Tally(oldCtrl[..][..oldCap], KFull) <= capacity
      requires oldCtrl != ctrl && oldSlots != slots
               && Copied(w, capacity, ctrl[..], slots[..], hash, oldCtrl[..], oldSlots[..], 0)
      modifies ctrl, slots
      ensures Copied(w, capacity, ctrl[..], slots[..], hash, old(oldCtrl[..]), old(oldSlots[..]), oldCap)
    {
      ghost var ctrl0, slots0 := oldCtrl[..], oldSlots[..];
      for i := 0 to oldCap
        invariant Copied(w, capacity, ctrl[..], slots[..], hash, ctrl0, slots0, i)
      {
        assert SlotOk(w, oldCap, ctrl0, slots0, hash, i);
        if oldCtrl[i].Full? {
          CopyElement(ctrl0, slots0, oldCap, i, oldSlots[i].value);
        } else {
          CopySkip(w, capacity, ctrl[..], slots[..], hash, ctrl0, slots0, i);
        }
      }
    }

    /** resize: same elements in fresh storage, all reachable, no tombstone left. The accounting is right exactly
        when the growth limit of the new table covers the elements; otherwise growth_left wraps around. */
    method Resize(newCap: nat)
      requires Valid() && IsCapacity(newCap) && 1 <= newCap && size <= newCap
      modifies this
      ensures Inv(w, capacity, ctrl[..], slots[..], hash) && Elements() == old(Elements()) && fresh(ctrl)
              && fresh(slots)
      ensures capacity == newCap && size == old(size) == Tally(ctrl[..][..capacity], KFull)
      ensures growthLeft == GrowthLeft(CapacityToGrowth(w, newCap), size)
      ensures Valid() <==> size <= CapacityToGrowth(w, newCap)
    {
      var oldCtrl, oldSlots, oldCap := ctrl, slots, capacity;
      InitializeSlots(newCap);
      growthLeft := GrowthLeft(CapacityToGrowth(w, newCap), size);
      FreshTable(w, newCap, ctrl[..], slots[..], hash);
      CopyAll(oldCtrl, oldSlots, oldCap);
      assert old(slots[..])[..oldCap] == old(slots[..]);
    }

    /** ConvertDeletedToEmptyAndFullToDeleted: group by group, then the clones and the sentinel. */
    method ConvertBytes()
      requires Shape(w, capacity, ctrl[..]) && capacity + 1 >= w
      modifies ctrl
      ensures Shape(w, capacity, ctrl[..])
      ensures forall i :: 0 <= i < capacity ==> ctrl[..][i] == Converted(old(ctrl[..])[i])
    {
      ghost var bytes := ctrl[..];
      ghost var e := LargeCapacity(w, capacity);
      ConvertGroups(Arith.Pow2(e));
      forall j | 0 <= j < w { ctrl[capacity + 1 + j] := ctrl[j]; }
      ctrl[capacity] := Sentinel;
    }

    method ConvertGroups(ghost m: nat)
      requires (w == 8 || w == 16) && capacity + 1 == w * m <= ctrl.Length
      modifies ctrl
      ensures forall i :: 0 <= i < ctrl.Length ==>
              ctrl[i] == if i <= capacity then Converted(old(ctrl[i])) else old(ctrl[i])
    {
      var pos := 0;
      ghost var g := 0;
      while pos != capacity + 1
        invariant pos == w * g && g <= m && pos <= capacity + 1
        invariant forall i :: 0 <= i < ctrl.Length ==>
                  ctrl[i] == if i < pos then Converted(old(ctrl[i])) else old(ctrl[i])
        decreases m - g
      {
        assert pos + w <= capacity + 1 && pos + w == w * (g + 1) by {
          assert g < m;
          Arith.MulMonotone(g + 1, m, w);
        }
        ghost var before := ctrl[..];
        var g' := ConvertGroup(ctrl[pos..pos + w]);
        assert forall j :: 0 <= j < w ==> g'[j] == Converted(before[pos + j]);
        forall j | 0 <= j < w { ctrl[pos + j] := g'[j]; }
        assert forall i :: 0 <= i < ctrl.Length ==> ctrl[i] == if pos <= i < pos + w then g'[i - pos] else before[i];
        pos, g := pos + w, g + 1;
      }
    }

    /** The element already sits in the best group it can: mark it full. */
    method MarkFull(i: nat, h2: bv7)
      requires DropInv(w, capacity, ctrl[..], slots[..], hash) && i < capacity && ctrl[i] == Deleted
      requires slots[..][i].Some? && h2 == hash(slots[i].value).h2
      requires Solid(w, capacity, ctrl[..], hash(slots[i].value).h1, i)
      modifies ctrl
      ensures DropInv(w, capacity, ctrl[..], slots[..], hash)
      ensures Placed(capacity, old(ctrl[..]), ctrl[..]) && ctrl[..][i] != Deleted
    {
      StayStep(w, capacity, ctrl[..], slots[..], hash, i);
      SetCtrlByte(i, Full(h2));
    }

    /** Transfer the element to an empty spot. */
    method MoveTo(i: nat, t: nat, h2: bv7)
      requires DropInv(w, capacity, ctrl[..], slots[..], hash) && i < capacity && t < capacity
      requires ctrl[i] == Deleted && ctrl[t] == Empty
      requires slots[..][i].Some? && h2 == hash(slots[i].value).h2
      requires Solid(w, capacity, ctrl[..], hash(slots[i].value).h1, t)
      modifies ctrl, slots
      ensures DropInv(w, capacity, ctrl[..], slots[..], hash) && Elements() == old(Elements())
      ensures Placed(capacity, old(ctrl[..]), ctrl[..]) && ctrl[..][i] != Deleted
    {
      ghost var elems := slots[..];
      MoveStep(w, capacity, ctrl[..], elems, hash, i, t);
      SetCtrlByte(t, Full(h2));
      slots[t] := slots[i];
      slots[i] := None;
      assert slots[..] == elems[t := elems[i]][i := None];
      SetCtrlByte(i, Empty);
    }

    /** Swap with an element that is still to be placed. */
    method SwapWith(i: nat, t: nat, h2: bv7)
      requires DropInv(w, capacity, ctrl[..], slots[..], hash) && i < capacity && t < capacity && i != t
      requires ctrl[i] == Deleted && ctrl[t] == Deleted
      requires slots[..][i].Some? && h2 == hash(slots[i].value).h2
      requires Solid(w, capacity, ctrl[..], hash(slots[i].value).h1, t)
      modifies ctrl, slots
      ensures DropInv(w, capacity, ctrl[..], slots[..], hash) && Elements() == old(Elements())
      ensures Placed(capacity, old(ctrl[..]), ctrl[..])
    {
      ghost var elems := slots[..];
      SwapStep(w, capacity, ctrl[..], elems, hash, i, t);
      SetCtrlByte(t, Full(h2));
      var tmp := slots[i];
      slots[i] := slots[t];
      slots[t] := tmp;
      assert slots[..] == elems[t := elems[i]][i := elems[t]];
    }

    /** Body of the rehash loop for a slot that holds an element still to be placed.
        Returns whether the slot must be visited again. */
    method PlaceOne(i: nat) returns (repeat: bool)
      requires DropInv(w, capacity, ctrl[..], slots[..], hash) && capacity + 1 >= w
      requires i < capacity && ctrl[i] == Deleted
      modifies ctrl, slots
      ensures DropInv(w, capacity, ctrl[..], slots[..], hash) && Elements() == old(Elements())
      ensures Placed(capacity, old(ctrl[..]), ctrl[..])
      ensures !repeat ==> ctrl[..][i] != Deleted
    {
      assert DropOk(w, capacity, ctrl[..], slots[..], hash, i);
      assert IsHole(ctrl[..][i]);
      var h := hash(slots[i].value);
      var t, k := FindFirstNonFull(h);
      assert Solid(w, capacity, ctrl[..], h.h1, t);
      if GroupIndex(h.h1, w, capacity + 1, t) == GroupIndex(h.h1, w, capacity + 1, i) {
        SameGroupSolid(w, capacity, ctrl[..], h.h1, i, t, k);
        MarkFull(i, h.h2);
        repeat := false;
      } else if ctrl[t] == Empty {
        MoveTo(i, t, h.h2);
        repeat := false;
      } else {
        SwapWith(i, t, h.h2);
        repeat := true;
      }
    }

    /** First half of drop_deletes_without_resize: every element is marked as still to be placed. */
    method StartRehash(ghost model: set<K>)
      requires Valid() && capacity + 1 >= w && Elements() == model
      modifies ctrl
      ensures Rehashing(w, capacity, ctrl[..], slots[..], hash, model, size)
    {
      ghost var bytes := ctrl[..];
      ConvertBytes();
      ConvertStartsDrop(w, capacity, bytes, slots[..], hash, ctrl[..]);
      ConvertTally(w, capacity, bytes, ctrl[..]);
    }

    /** Second half: place the elements one by one. Each round removes a mark or moves on. */
    method PlaceAll(ghost model: set<K>)
      requires capacity + 1 >= w && Rehashing(w, capacity, ctrl[..], slots[..], hash, model, size)
      modifies ctrl, slots
      ensures Rehashing(w, capacity, ctrl[..], slots[..], hash, model, size) && DoneBelow(ctrl[..], capacity)
    {
      var i := 0;
      while i != capacity
        invariant i <= capacity && Rehashing(w, capacity, ctrl[..], slots[..], hash, model, size)
        invariant DoneBelow(ctrl[..], i)
        decreases Tally(ctrl[..][..capacity], KDeleted), capacity - i
      {
        if ctrl[i] == Deleted {
          ghost var before := ctrl[..];
          var repeat := PlaceOne(i);
          DoneStep(capacity, before, ctrl[..], i);
          if !repeat { i := i + 1; }
        } else {
          i := i + 1;
        }
      }
    }

    /** drop_deletes_without_resize. */
    method DropDeletesWithoutResize()
      requires Valid() && capacity + 1 >= w
      modifies this`growthLeft, ctrl, slots
      ensures Valid() && Elements() == old(Elements())
      ensures growthLeft == CapacityToGrowth(w, capacity) - size && Tally(ctrl[..][..capacity], KDeleted) == 0
    {
      ghost var model := Elements();
      assert size <= CapacityToGrowth(w, capacity);
      StartRehash(model);
      PlaceAll(model);
      RehashDone(w, capacity, ctrl[..], slots[..], hash, size);
      growthLeft := CapacityToGrowth(w, capacity) - size;
    }

    /** rehash_and_grow_if_necessary: in place when at most half of the growth limit is used, otherwise into a
        table of twice the size. */
    method RehashAndGrowIfNecessary()
      requires Valid() && growthLeft == 0
      modifies this, ctrl, slots
      ensures Valid() && Elements() == old(Elements()) && size == old(size) && growthLeft > 0
      ensures if old(capacity) > 0 && size <= CapacityToGrowth(w, old(capacity)) / 2
              then capacity == old(capacity) && ctrl == old(ctrl) && slots == old(slots)
              else capacity == 2 * old(capacity) + 1
      ensures Tally(ctrl[..][..capacity], KDeleted) == 0
      ensures (ctrl == old(ctrl) || fresh(ctrl)) && (slots == old(slots) || fresh(slots))
    {
      GrowChoice(w, capacity, ctrl[..], size);
      if capacity == 0 {
        Resize(1);
      } else if size <= CapacityToGrowth(w, capacity) / 2 {
        DropDeletesWithoutResize();
      } else {
        Resize(capacity * 2 + 1);
      }
    }

    lemma ValidHasHole()
      requires Valid()
      ensures capacity + 1 >= w ==> exists i :: 0 <= i < capacity && IsHole(ctrl[..][i])
    {
      if capacity + 1 >= w {
        HasEmptySlot(w, capacity, ctrl[..]);
        var i :| 0 <= i < capacity && ctrl[..][i] == Empty;
        assert IsHole(ctrl[..][i]);
      }
    }

    /** The tail of prepare_insert: take the target slot. */
    method TakeSlot(t: nat, h: HashVal, ghost key: K)
      requires Valid() && key !in Elements() && h == hash(key)
      requires t < capacity && IsHole(ctrl[t]) && Solid(w, capacity, ctrl[..], h.h1, t)
      requires growthLeft == 0 ==> ctrl[t] == Deleted
      modifies this`size, this`growthLeft, ctrl
      ensures slots.Length == capacity
      ensures Good(w, capacity, ctrl[..], slots[..][t := Some(key)], hash, size, growthLeft)
      ensures Model(slots[..][t := Some(key)]) == old(Elements()) + {key}
      ensures growthLeft <= old(growthLeft)
    {
      InsertTable(w, capacity, ctrl[..], slots[..], hash, size, growthLeft, key, t);
      size := size + 1;
      growthLeft := growthLeft - (if ctrl[t] == Empty then 1 else 0);
      SetCtrlByte(t, Full(h.h2));
    }

    /** prepare_insert: reserve a slot for an element that is not in the table. With growth left, or with a
        tombstone as the first hole on the path, that hole is taken and the table stays as it is. */
    method PrepareInsert(h: HashVal, ghost key: K) returns (t: nat, ghost first: nat, ghost k: nat)
      requires Valid() && key !in Elements() && h == hash(key)
      modifies this, ctrl, slots
      ensures t < capacity == slots.Length
      ensures Good(w, capacity, ctrl[..], slots[..][t := Some(key)], hash, size, growthLeft)
      ensures Model(slots[..][t := Some(key)]) == old(Elements()) + {key}
      ensures Grown(w, old(capacity), old(size), old(growthLeft), capacity)
      ensures IsTarget(w, old(capacity), old(ctrl[..]), h.h1, first, k)
      ensures old(growthLeft) > 0 || (first < |old(ctrl[..])| && old(ctrl[..])[first] == Deleted) ==>
                t == first && capacity == old(capacity) && ctrl == old(ctrl) && growthLeft <= old(growthLeft)
      ensures (ctrl == old(ctrl) || fresh(ctrl)) && (slots == old(slots) || fresh(slots))
    {
      ValidHasHole();
      t, k := FindFirstNonFull(h);
      first := t;
      ghost var last := k;
      if growthLeft == 0 && ctrl[t] != Deleted {
        RehashAndGrowIfNecessary();
        ValidHasHole();
        t, last := FindFirstNonFull(h);
      }
      TargetInTable(w, capacity, ctrl[..], size, growthLeft, h.h1, t, last);
      TakeSlot(t, h, key);
    }

    /** insert: find_or_prepare_insert, then construct the element in its slot. */
    method Insert(key: K) returns (inserted: bool)
      requires Valid()
      modifies this, ctrl, slots
      ensures Valid() && Elements() == old(Elements()) + {key}
      ensures inserted <==> key !in old(Elements())
      ensures if inserted then Grown(w, old(capacity), old(size), old(growthLeft), capacity) else unchanged(this)
      ensures (ctrl == old(ctrl) || fresh(ctrl)) && (slots == old(slots) || fresh(slots))
    {
      var found, offset := FindImpl(key);
      if found { return false; }
      ghost var first, k;
      offset, first, k := PrepareInsert(hash(key), key);
      ghost var elems := slots[..];
      slots[offset] := Some(key);
      assert slots[..] == elems[offset := Some(key)];
      inserted := true;
    }

    /** destroy_slots: back to the table without storage. */
    method DestroySlots()
      requires w == 8 || w == 16
      modifies this
      ensures Valid() && Elements() == {} && capacity == 0 && fresh(ctrl) && fresh(slots)
    {
      ctrl := new Ctrl[16](i => if i == 0 then Sentinel else Empty);
      slots := new Option<K>[0];
      size, capacity, growthLeft := 0, 0, 0;
      assert IsCapacity(0) by { assert 0 + 1 == Arith.Pow2(0); }
      FreshTable(w, 0, ctrl[..], slots[..], hash);
    }

    /** clear: small tables are reset in place, large ones give their storage back. */
    method Clear()
      requires Valid()
      modifies this, ctrl, slots
      ensures Valid() && Elements() == {} && size == 0
      ensures capacity == if old(size) > 0 && old(capacity) > 127 then 0 else old(capacity)
      ensures (ctrl == old(ctrl) || fresh(ctrl)) && (slots == old(slots) || fresh(slots))
    {
      SizeIsCardinality(w, capacity, ctrl[..], slots[..], hash, size, growthLeft);
      if size == 0 { return; }
      if capacity > 127 {
        DestroySlots();
      } else {
        forall i | 0 <= i < capacity { slots[i] := None; }
        size := 0;
        forall p | 0 <= p < capacity + w { ctrl[p] := Empty; }
        ctrl[capacity] := Sentinel;
        growthLeft := CapacityToGrowth(w, capacity);
        FreshTable(w, capacity, ctrl[..], slots[..], hash);
      }
    }

    /** rehash(n): the elements stay and stay reachable. For n = 0 the new capacity comes from size() without
        slack, so the accounting survives exactly on the sizes outside the top eighth of their power of two. */
    method Rehash(n: nat)
      requires Valid()
      modifies this, ctrl, slots
      ensures Inv(w, capacity, ctrl[..], slots[..], hash) && Elements() == old(Elements()) && size == old(size)
      ensures Valid() <==> n > 0 || !Overfull(w, size)
      ensures IsCapacity(capacity) && capacity == RehashCapacity(n, old(size), old(capacity))
      ensures n == 0 && size > 0 ==> size == Tally(ctrl[..][..capacity], KFull)
      ensures n > 0 && capacity == old(capacity) ==> unchanged(this) && unchanged(ctrl) && unchanged(slots)
      ensures (ctrl == old(ctrl) || fresh(ctrl)) && (slots == old(slots) || fresh(slots))
    {
      if n == 0 && capacity == 0 {
        assert ctrl[..][..capacity] == [] && size == 0;
        return;
      }
      if n == 0 && size == 0 {
        SizeIsCardinality(w, capacity, ctrl[..], slots[..], hash, size, growthLeft);
        DestroySlots();
        return;
      }
      var m := NormalizeCapacity(if n > size then n else size);
      NormalizeLeast(if n > size then n else size);
      if n == 0 || m > capacity {
        if n == 0 { RehashZeroFits(w, size); } else { GrowthMonotone(w, capacity, m); }
        Resize(m);
      }
    }

    /** reserve(n): afterwards n elements fit without another rehash. reserve(0) is rehash(0). */
    method Reserve(n: nat)
      requires Valid()
      modifies this, ctrl, slots
      ensures Inv(w, capacity, ctrl[..], slots[..], hash) && Elements() == old(Elements()) && size == old(size)
      ensures Valid() <==> n > 0 || !Overfull(w, size)
      ensures n <= CapacityToGrowth(w, capacity)
      ensures n > 0 ==> LeastFor(w, n, old(capacity), capacity)
      ensures n > 0 && capacity == old(capacity) ==> unchanged(this) && unchanged(ctrl) && unchanged(slots)
      ensures (ctrl == old(ctrl) || fresh(ctrl)) && (slots == old(slots) || fresh(slots))
    {
      ghost var size0, cap0 := size, capacity;
      Rehash(GrowthToLowerboundCapacity(w, n));
      if n > 0 { ReserveCapacity(w, n, size0, cap0, capacity); }
    }

    method Contains(key: K) returns (found: bool)
      requires Valid()
      ensures found <==> key in Elements()
    {
      var offset;
      found, offset := FindImpl(key);
    }

    lemma SizeIsExact()
      requires Valid()
      ensures size == |Elements()|
    {
      SizeIsCardinality(w, capacity, ctrl[..], slots[..], hash, size, growthLeft);
    }

    method Size() returns (n: nat)
      requires Valid()
      ensures n == |Elements()|
    {
      SizeIsExact();
      n := size;
    }
  }

  /** What goes wrong otherwise: rehash(0) on seven elements in 8-wide groups fills every slot, so that no probe
      window of any hash has an Empty byte and the lookup of an absent key never stops. */
  method RehashZeroTrap<K(==, !new)>(t: RawHashSet<K>)
    requires t.Valid() && t.w == 8 && t.size == 7
    modifies t, t.ctrl, t.slots
    ensures !t.Valid() && t.Elements() == old(t.Elements()) && t.capacity == 7
    ensures forall h1: nat, k: nat :: NoEmptyAt(8, t.ctrl[..], Off(8, 7, h1, k))
  {
    RehashZeroCounterexample();
    t.Rehash(0);
    forall h1: nat, k: nat ensures NoEmptyAt(8, t.ctrl[..], Off(8, 7, h1, k)) {
      FullTableNeverStops(8, 7, t.ctrl[..], h1, k);
    }
  }
}
