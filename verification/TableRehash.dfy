/** In-place rehash (drop_deletes_without_resize) and the accounting of control bytes. */
module TableRehash {
  import opened Options
  import opened Capacity
  import opened Group
  import opened Probe
  import opened Table
  import opened TableInv

  // -------------------------------------------------------------- in-place rehash

  /** During the rehash: Full marks placed elements, Deleted marks elements still to be placed.
      A placed element has only placed elements before it on its probe path. */
  ghost predicate DropOk<K>(w: nat, cap: nat, ctrl: seq<Ctrl>, slots: seq<Option<K>>, hash: K -> HashVal, i: nat)
    requires w > 0 && i < |ctrl| && i < |slots|
  {
    if ctrl[i].Full? then
      && slots[i].Some?
      && ctrl[i].h2 == hash(slots[i].value).h2
      && Solid(w, cap, ctrl, hash(slots[i].value).h1, i)
    else slots[i].Some? == ctrl[i].Deleted?
  }

  ghost predicate DropInv<K>(w: nat, cap: nat, ctrl: seq<Ctrl>, slots: seq<Option<K>>, hash: K -> HashVal) {
    && Shape(w, cap, ctrl)
    && |slots| == cap
    && Distinct(slots)
    && forall i :: 0 <= i < cap ==> DropOk(w, cap, ctrl, slots, hash, i)
  }

  /** Placed elements stay placed: turning holes into anything never fills a solid window with a hole. */
  lemma SolidMonotone(w: nat, cap: nat, ctrl: seq<Ctrl>, ctrl': seq<Ctrl>, h1: nat, i: nat)
    requires w > 0 && cap + w <= |ctrl| == |ctrl'|
    requires forall p :: 0 <= p < cap + w && IsHole(ctrl'[p]) ==> IsHole(ctrl[p])
    requires Solid(w, cap, ctrl, h1, i)
    ensures Solid(w, cap, ctrl', h1, i)
  {
    var k :| 0 <= k && SolidVia(w, cap, ctrl, h1, i, k);
    assert SolidVia(w, cap, ctrl', h1, i, k);
  }

  /** The conversion pass starts the rehash. */
  lemma ConvertStartsDrop<K>(w: nat, cap: nat, ctrl: seq<Ctrl>, slots: seq<Option<K>>, hash: K -> HashVal,
                             ctrl': seq<Ctrl>)
    requires Inv(w, cap, ctrl, slots, hash)
    requires Shape(w, cap, ctrl') && forall i :: 0 <= i < cap ==> ctrl'[i] == Converted(ctrl[i])
    ensures DropInv(w, cap, ctrl', slots, hash)
  {
    forall i | 0 <= i < cap ensures DropOk(w, cap, ctrl', slots, hash, i) {
      assert SlotOk(w, cap, ctrl, slots, hash, i);
    }
  }

  /** One byte goes from hole to Full at position t where the element in slots'[t] is solid. */
  lemma PlaceKeepsDrop<K>(w: nat, cap: nat, ctrl: seq<Ctrl>, slots: seq<Option<K>>, hash: K -> HashVal,
                          t: nat, x: K, ctrl': seq<Ctrl>)
    requires DropInv(w, cap, ctrl, slots, hash)
    requires t < cap && IsHole(ctrl[t]) && Solid(w, cap, ctrl, hash(x).h1, t)
    requires MirrorIndex(w, cap, t) < |ctrl| && ctrl' == SetCtrl(w, cap, ctrl, t, Full(hash(x).h2))
    ensures Shape(w, cap, ctrl') && ctrl'[t] == Full(hash(x).h2) && Solid(w, cap, ctrl', hash(x).h1, t)
    ensures forall j :: 0 <= j < cap && j != t ==> ctrl'[j] == ctrl[j] && DropOk(w, cap, ctrl', slots, hash, j)
  {
    SetCtrlShape(w, cap, ctrl, t, Full(hash(x).h2), ctrl');
    SolidMonotone(w, cap, ctrl, ctrl', hash(x).h1, t);
    forall j | 0 <= j < cap && j != t ensures DropOk(w, cap, ctrl', slots, hash, j) {
      assert DropOk(w, cap, ctrl, slots, hash, j);
      if ctrl[j].Full? {
        SolidMonotone(w, cap, ctrl, ctrl', hash(slots[j].value).h1, j);
      }
    }
  }

  /** Case 1: the element is already in its best window and is marked full where it is. */
  lemma DropStay<K>(w: nat, cap: nat, ctrl: seq<Ctrl>, slots: seq<Option<K>>, hash: K -> HashVal,
                    i: nat, ctrl': seq<Ctrl>)
    requires DropInv(w, cap, ctrl, slots, hash)
    requires i < cap && ctrl[i] == Deleted && slots[i].Some?
    requires Solid(w, cap, ctrl, hash(slots[i].value).h1, i)
    requires MirrorIndex(w, cap, i) < |ctrl| && ctrl' == SetCtrl(w, cap, ctrl, i, Full(hash(slots[i].value).h2))
    ensures DropInv(w, cap, ctrl', slots, hash)
  {
    PlaceKeepsDrop(w, cap, ctrl, slots, hash, i, slots[i].value, ctrl');
  }

  /** Case 2: the element moves to an empty slot and its old slot becomes empty. */
  lemma DropMove<K>(w: nat, cap: nat, ctrl: seq<Ctrl>, slots: seq<Option<K>>, hash: K -> HashVal,
                    i: nat, t: nat, ctrl1: seq<Ctrl>, ctrl2: seq<Ctrl>, slots': seq<Option<K>>)
    requires DropInv(w, cap, ctrl, slots, hash)
    requires i < cap && t < cap && ctrl[i] == Deleted && ctrl[t] == Empty && slots[i].Some?
    requires Solid(w, cap, ctrl, hash(slots[i].value).h1, t)
    requires MirrorIndex(w, cap, t) < |ctrl| && ctrl1 == SetCtrl(w, cap, ctrl, t, Full(hash(slots[i].value).h2))
    requires MirrorIndex(w, cap, i) < |ctrl| && ctrl2 == SetCtrl(w, cap, ctrl1, i, Empty)
    requires slots' == slots[t := slots[i]][i := None]
    ensures DropInv(w, cap, ctrl2, slots', hash)
    ensures Model(slots') == Model(slots)
  {
    PlaceKeepsDrop(w, cap, ctrl, slots, hash, t, slots[i].value, ctrl1);
    SetCtrlShape(w, cap, ctrl1, i, Empty, ctrl2);
    assert slots[t].None? by { assert DropOk(w, cap, ctrl, slots, hash, t); }
    forall j | 0 <= j < cap ensures DropOk(w, cap, ctrl2, slots', hash, j) {
      if j != t { assert DropOk(w, cap, ctrl1, slots, hash, j); }
      if ctrl2[j].Full? {
        SolidMonotone(w, cap, ctrl1, ctrl2, hash(slots'[j].value).h1, j);
      }
    }
    MoveModel(slots, i, t);
  }

  /** Case 3: the target holds an element still to be placed; the two elements swap slots. */
  lemma DropSwap<K>(w: nat, cap: nat, ctrl: seq<Ctrl>, slots: seq<Option<K>>, hash: K -> HashVal,
                    i: nat, t: nat, ctrl': seq<Ctrl>, slots': seq<Option<K>>)
    requires DropInv(w, cap, ctrl, slots, hash)
    requires i < cap && t < cap && i != t && ctrl[i] == Deleted && ctrl[t] == Deleted && slots[i].Some?
    requires Solid(w, cap, ctrl, hash(slots[i].value).h1, t)
    requires MirrorIndex(w, cap, t) < |ctrl| && ctrl' == SetCtrl(w, cap, ctrl, t, Full(hash(slots[i].value).h2))
    requires slots' == slots[t := slots[i]][i := slots[t]]
    ensures DropInv(w, cap, ctrl', slots', hash)
    ensures Model(slots') == Model(slots)
  {
    PlaceKeepsDrop(w, cap, ctrl, slots, hash, t, slots[i].value, ctrl');
    assert slots[t].Some? by { assert DropOk(w, cap, ctrl, slots, hash, t); }
    forall j | 0 <= j < cap ensures DropOk(w, cap, ctrl', slots', hash, j) {
      if j != t { assert DropOk(w, cap, ctrl', slots, hash, j); }
    }
    SwapModel(slots, i, t);
  }

  lemma MoveModel<K>(slots: seq<Option<K>>, i: nat, t: nat)
    requires i < |slots| && t < |slots| && i != t && slots[t].None?
    ensures Model(slots[t := slots[i]][i := None]) == Model(slots)
  {
    var s := slots[t := slots[i]][i := None];
    forall j | 0 <= j < |slots| && slots[j].Some? ensures slots[j].value in Model(s) {
      assert s[if j == i then t else j] == slots[j];
    }
    forall j | 0 <= j < |s| && s[j].Some? ensures s[j].value in Model(slots) {
      assert slots[if j == t then i else j] == s[j];
    }
  }

  lemma SwapModel<K>(slots: seq<Option<K>>, i: nat, t: nat)
    requires i < |slots| && t < |slots|
    ensures Model(slots[t := slots[i]][i := slots[t]]) == Model(slots)
  {
    var s := slots[t := slots[i]][i := slots[t]];
    forall j | 0 <= j < |slots| && slots[j].Some? ensures slots[j].value in Model(s) {
      assert s[if j == i then t else if j == t then i else j] == slots[j];
    }
    forall j | 0 <= j < |s| && s[j].Some? ensures s[j].value in Model(slots) {
      assert slots[if j == i then t else if j == t then i else j] == s[j];
    }
  }

  /** When nothing is left to place, the table satisfies its invariant and has no tombstone. */
  lemma DropDone<K>(w: nat, cap: nat, ctrl: seq<Ctrl>, slots: seq<Option<K>>, hash: K -> HashVal)
    requires DropInv(w, cap, ctrl, slots, hash)
    requires forall i :: 0 <= i < cap ==> ctrl[i] != Deleted
    ensures Inv(w, cap, ctrl, slots, hash)
  {
    forall i | 0 <= i < cap ensures SlotOk(w, cap, ctrl, slots, hash, i) {
      assert DropOk(w, cap, ctrl, slots, hash, i);
      if ctrl[i].Full? {
        SolidIsReach(w, cap, ctrl, hash(slots[i].value).h1, i);
      }
    }
  }

  /** The same-group test is sound: a slot in the same group as the first hole is just as good. */
  lemma SameGroupSolid(w: nat, cap: nat, ctrl: seq<Ctrl>, h1: nat, i: nat, t: nat, k: nat)
    requires (w == 8 || w == 16) && IsCapacity(cap) && cap + 1 >= w && i <= cap && t <= cap
    requires SolidVia(w, cap, ctrl, h1, t, k)
    requires GroupIndex(h1, w, cap + 1, t) == GroupIndex(h1, w, cap + 1, i)
    ensures SolidVia(w, cap, ctrl, h1, i, k)
  {
    var e := LargeCapacity(w, cap);
    SameGroup(h1, w, Arith.Pow2(e), k, t, i);
  }

  // -------------------------------------------------------------- counting

  datatype Kind = KFull | KEmpty | KDeleted

  predicate Is(c: Ctrl, kind: Kind) {
    match kind
    case KFull => c.Full?
    case KEmpty => c.Empty?
    case KDeleted => c.Deleted?
  }

  function Tally(s: seq<Ctrl>, kind: Kind): nat {
    if s == [] then 0 else Tally(s[..|s| - 1], kind) + (if Is(s[|s| - 1], kind) then 1 else 0)
  }

  lemma {:induction false} TallyUpdate(s: seq<Ctrl>, i: nat, c: Ctrl, kind: Kind)
    requires i < |s|
    ensures Tally(s[i := c], kind) ==
            Tally(s, kind) - (if Is(s[i], kind) then 1 else 0) + (if Is(c, kind) then 1 else 0)
  {
    var n := |s| - 1;
    if i == n {
      assert s[i := c][..n] == s[..n];
    } else {
      TallyUpdate(s[..n], i, c, kind);
      assert s[i := c][..n] == s[..n][i := c];
    }
  }

  /** Full, empty and deleted bytes add up to the capacity. */
  lemma {:induction false} TallyTotal(s: seq<Ctrl>)
    requires forall i :: 0 <= i < |s| ==> s[i] != Sentinel
    ensures Tally(s, KFull) + Tally(s, KEmpty) + Tally(s, KDeleted) == |s|
  {
    if s != [] {
      TallyTotal(s[..|s| - 1]);
    }
  }

  lemma {:induction false} TallyZero(s: seq<Ctrl>, kind: Kind)
    ensures Tally(s, kind) == 0 <==> forall i :: 0 <= i < |s| ==> !Is(s[i], kind)
  {
    if s != [] {
      var t := s[..|s| - 1];
      TallyZero(t, kind);
      if Tally(s, kind) == 0 {
        forall i | 0 <= i < |s| ensures !Is(s[i], kind) {
          if i < |t| { assert t[i] == s[i]; }
        }
      } else if Tally(t, kind) != 0 {
        var i :| 0 <= i < |t| && Is(t[i], kind);
        assert s[i] == t[i];
      }
    }
  }

  /** A large table that respects its growth limit keeps an empty slot. */
  lemma HasEmptySlot(w: nat, cap: nat, ctrl: seq<Ctrl>)
    requires Shape(w, cap, ctrl) && cap + 1 >= w
    requires Tally(ctrl[..cap], KFull) + Tally(ctrl[..cap], KDeleted) <= CapacityToGrowth(w, cap)
    ensures exists i :: 0 <= i < cap && ctrl[i] == Empty
  {
    GrowthLeavesRoom(w, cap);
    TallyTotal(ctrl[..cap]);
    TallyZero(ctrl[..cap], KEmpty);
    var i :| 0 <= i < cap && Is(ctrl[..cap][i], KEmpty);
    assert ctrl[i] == Empty;
  }

  /** size_ counts the elements: as many full control bytes as elements in the set. */
  lemma {:induction false} FullCountsModel<K>(ctrl: seq<Ctrl>, slots: seq<Option<K>>)
    requires |ctrl| == |slots| && Distinct(slots)
    requires forall i :: 0 <= i < |ctrl| ==> (ctrl[i].Full? <==> slots[i].Some?)
    ensures Tally(ctrl, KFull) == |Model(slots)|
  {
    if ctrl == [] {
      assert Model(slots) == {};
    } else {
      var n := |ctrl| - 1;
      var c, s := ctrl[..n], slots[..n];
      FullCountsModel(c, s);
      if slots[n].Some? {
        assert slots[n].value !in Model(s);
        assert Model(slots) == Model(s) + {slots[n].value} by { ModelSnoc(slots); }
      } else {
        assert Model(slots) == Model(s) by { ModelSnoc(slots); }
      }
    }
  }

  lemma ModelSnoc<K>(slots: seq<Option<K>>)
    requires |slots| > 0
    ensures Model(slots) == Model(slots[..|slots| - 1])
                          + (if slots[|slots| - 1].Some? then {slots[|slots| - 1].value} else {})
  {
    var n := |slots| - 1;
    var s := slots[..n];
    forall j | 0 <= j < n && slots[j].Some? ensures slots[j].value in Model(s) {
      assert s[j] == slots[j];
    }
    forall j | 0 <= j < n && s[j].Some? ensures s[j].value in Model(slots) {
      assert slots[j] == s[j];
    }
    if slots[n].Some? { assert slots[n].value in Model(slots); }
  }

  /** size + tombstones + growth_left is the growth limit; small tables hold no tombstone. */
  ghost predicate Accounts(w: nat, cap: nat, ctrl: seq<Ctrl>, size: nat, growthLeft: nat) {
    && cap <= |ctrl|
    && size == Tally(ctrl[..cap], KFull)
    && size + Tally(ctrl[..cap], KDeleted) + growthLeft == CapacityToGrowth(w, cap)
    && (cap + 1 < w ==> Tally(ctrl[..cap], KDeleted) == 0)
  }

  lemma AccountsErase(w: nat, cap: nat, ctrl: seq<Ctrl>, size: nat, growthLeft: nat, i: nat, c: Ctrl)
    requires Shape(w, cap, ctrl) && Accounts(w, cap, ctrl, size, growthLeft)
    requires i < cap && ctrl[i].Full? && IsHole(c) && (cap + 1 < w ==> c == Empty)
    ensures MirrorIndex(w, cap, i) < |ctrl| && size >= 1
    ensures Accounts(w, cap, SetCtrl(w, cap, ctrl, i, c), size - 1, growthLeft + (if c == Empty then 1 else 0))
  {
    SetCtrlInBounds(w, cap, ctrl, i);
    SetCtrlShape(w, cap, ctrl, i, c, SetCtrl(w, cap, ctrl, i, c));
    TallyUpdate(ctrl[..cap], i, c, KFull);
    TallyUpdate(ctrl[..cap], i, c, KDeleted);
  }

  /** Filling a hole: an Empty one costs growth, a tombstone does not. */
  lemma AccountsInsert(w: nat, cap: nat, ctrl: seq<Ctrl>, size: nat, growthLeft: nat, i: nat, h2: bv7)
    requires Shape(w, cap, ctrl) && Accounts(w, cap, ctrl, size, growthLeft)
    requires i < cap && IsHole(ctrl[i]) && (growthLeft == 0 ==> ctrl[i].Deleted?)
    ensures MirrorIndex(w, cap, i) < |ctrl|
    ensures Accounts(w, cap, SetCtrl(w, cap, ctrl, i, Full(h2)), size + 1,
            growthLeft - (if ctrl[i].Empty? then 1 else 0))
  {
    SetCtrlInBounds(w, cap, ctrl, i);
    SetCtrlShape(w, cap, ctrl, i, Full(h2), SetCtrl(w, cap, ctrl, i, Full(h2)));
    TallyUpdate(ctrl[..cap], i, Full(h2), KFull);
    TallyUpdate(ctrl[..cap], i, Full(h2), KDeleted);
  }

  /** A table at rest: reachable elements and exact accounting. */
  ghost predicate Good<K>(w: nat, cap: nat, ctrl: seq<Ctrl>, slots: seq<Option<K>>, hash: K -> HashVal,
                          size: nat, growthLeft: nat) {
    Inv(w, cap, ctrl, slots, hash) && Accounts(w, cap, ctrl, size, growthLeft)
  }

  /** The byte that erase_meta_only writes. */
  function EraseByte(w: nat, cap: nat, ctrl: seq<Ctrl>, i: nat): Ctrl
    requires w > 0 && i <= cap && cap + w <= |ctrl|
  {
    if WasNeverFull(w, cap, ctrl, i) then Empty else Deleted
  }

  /** Erasing slot i removes exactly its element and keeps every other element reachable. */
  lemma EraseTable<K>(w: nat, cap: nat, ctrl: seq<Ctrl>, slots: seq<Option<K>>, hash: K -> HashVal,
                      size: nat, growthLeft: nat, i: nat)
    requires Good(w, cap, ctrl, slots, hash, size, growthLeft) && i < cap && ctrl[i].Full?
    ensures MirrorIndex(w, cap, i) < |ctrl| && size >= 1 && slots[i].Some?
    ensures var c := EraseByte(w, cap, ctrl, i);
            Good(w, cap, SetCtrl(w, cap, ctrl, i, c), slots[i := None], hash, size - 1,
                 growthLeft + (if c == Empty then 1 else 0))
    ensures Model(slots[i := None]) == Model(slots) - {slots[i].value}
    ensures EraseByte(w, cap, ctrl, i) == Empty <==> NeverFull(w, cap, ctrl, i)
    ensures cap + 1 < w ==> EraseByte(w, cap, ctrl, i) == Empty
  {
    var c := EraseByte(w, cap, ctrl, i);
    if cap + 1 >= w { WasNeverFullExact(w, cap, ctrl, i); } else { WasNeverFullSmall(w, cap, ctrl, i); }
    AccountsErase(w, cap, ctrl, size, growthLeft, i, c);
    EraseInv(w, cap, ctrl, slots, hash, i, c, SetCtrl(w, cap, ctrl, i, c), slots[i := None]);
  }

  /** Filling the target of a probe with a new element. */
  lemma InsertTable<K>(w: nat, cap: nat, ctrl: seq<Ctrl>, slots: seq<Option<K>>, hash: K -> HashVal,
                       size: nat, growthLeft: nat, x: K, i: nat)
    requires Good(w, cap, ctrl, slots, hash, size, growthLeft) && x !in Model(slots)
    requires i < cap && IsHole(ctrl[i]) && Solid(w, cap, ctrl, hash(x).h1, i) && (growthLeft == 0 ==> ctrl[i].Deleted?)
    ensures MirrorIndex(w, cap, i) < |ctrl| && slots[i].None?
    ensures Good(w, cap, SetCtrl(w, cap, ctrl, i, Full(hash(x).h2)), slots[i := Some(x)], hash, size + 1,
                 growthLeft - (if ctrl[i].Empty? then 1 else 0))
    ensures Model(slots[i := Some(x)]) == Model(slots) + {x}
  {
    assert SlotOk(w, cap, ctrl, slots, hash, i);
    AccountsInsert(w, cap, ctrl, size, growthLeft, i, hash(x).h2);
    InsertInv(w, cap, ctrl, slots, hash, x, i, SetCtrl(w, cap, ctrl, i, Full(hash(x).h2)), slots[i := Some(x)]);
  }

  // -------------------------------------------------------------- growing into a new table

  ghost predicate IsFresh<K>(w: nat, cap: nat, ctrl: seq<Ctrl>, slots: seq<Option<K>>) {
    && |ctrl| >= cap + w + (if cap + 1 >= w then 1 else 0) && |slots| == cap
    && (forall i :: 0 <= i < cap + w ==> ctrl[i] == if i == cap then Sentinel else Empty)
    && (forall i :: 0 <= i < cap ==> slots[i].None?)
  }

  lemma FreshTable<K>(w: nat, cap: nat, ctrl: seq<Ctrl>, slots: seq<Option<K>>, hash: K -> HashVal)
    requires (w == 8 || w == 16) && IsCapacity(cap) && IsFresh(w, cap, ctrl, slots)
    ensures Inv(w, cap, ctrl, slots, hash) && Model(slots) == {}
    ensures Tally(ctrl[..cap], KFull) == 0 && Tally(ctrl[..cap], KDeleted) == 0
  {
    TallyZero(ctrl[..cap], KFull);
    TallyZero(ctrl[..cap], KDeleted);
  }

  /** The elements of the first n old slots have been copied. */
  ghost predicate Copied<K>(w: nat, cap: nat, ctrl: seq<Ctrl>, slots: seq<Option<K>>, hash: K -> HashVal,
                            ctrl0: seq<Ctrl>, slots0: seq<Option<K>>, n: nat)
    requires n <= |ctrl0| && n <= |slots0|
  {
    && Inv(w, cap, ctrl, slots, hash)
    && Tally(ctrl[..cap], KDeleted) == 0
    && Tally(ctrl[..cap], KFull) == Tally(ctrl0[..n], KFull)
    && Model(slots) == Model(slots0[..n])
  }

  lemma {:induction false} TallyPrefix(s: seq<Ctrl>, n: nat, kind: Kind)
    requires n <= |s|
    ensures Tally(s[..n], kind) <= Tally(s, kind)
  {
    if n == |s| {
      assert s[..n] == s;
    } else {
      var t := s[..|s| - 1];
      TallyPrefix(t, n, kind);
      assert t[..n] == s[..n];
    }
  }

  lemma TallySnoc(s: seq<Ctrl>, n: nat, kind: Kind)
    requires n < |s|
    ensures Tally(s[..n + 1], kind) == Tally(s[..n], kind) + (if Is(s[n], kind) then 1 else 0)
  {
    assert s[..n + 1][..n] == s[..n];
  }

  /** There is room for one more element: the new table has an Empty slot. */
  lemma CopyHasRoom<K>(w: nat, cap: nat, ctrl: seq<Ctrl>, slots: seq<Option<K>>, hash: K -> HashVal,
                       ctrl0: seq<Ctrl>, slots0: seq<Option<K>>, cap0: nat, n: nat)
    requires n < cap0 <= |ctrl0| && n < |slots0| && ctrl0[n].Full?
    requires Copied(w, cap, ctrl, slots, hash, ctrl0, slots0, n)
    requires Tally(ctrl0[..cap0], KFull) <= cap
    ensures exists i :: 0 <= i < cap && IsHole(ctrl[i])
  {
    TallySnoc(ctrl0, n, KFull);
    TallyPrefix(ctrl0[..cap0], n + 1, KFull);
    assert ctrl0[..cap0][..n + 1] == ctrl0[..n + 1];
    TallyTotal(ctrl[..cap]);
    TallyZero(ctrl[..cap], KEmpty);
    var i :| 0 <= i < cap && Is(ctrl[..cap][i], KEmpty);
    assert IsHole(ctrl[i]);
  }

  /** A large table whose slots are all full has no Empty byte in any window: no lookup of an absent key ends. */
  lemma FullTableNeverStops(w: nat, cap: nat, ctrl: seq<Ctrl>, h1: nat, k: nat)
    requires Shape(w, cap, ctrl) && cap + 1 >= w && Tally(ctrl[..cap], KFull) == cap
    ensures NoEmptyAt(w, ctrl, Off(w, cap, h1, k))
  {
    TallyTotal(ctrl[..cap]);
    TallyZero(ctrl[..cap], KEmpty);
    var off := Off(w, cap, h1, k);
    forall p | off <= p < off + w && p < |ctrl| ensures ctrl[p] != Empty {
      var q := if p <= cap then p else p - cap - 1;
      assert ctrl[p] == ctrl[q];
      if q < cap { assert ctrl[..cap][q] == ctrl[q]; }
    }
  }

  lemma CopySkip<K>(w: nat, cap: nat, ctrl: seq<Ctrl>, slots: seq<Option<K>>, hash: K -> HashVal,
                    ctrl0: seq<Ctrl>, slots0: seq<Option<K>>, n: nat)
    requires n < |ctrl0| && n < |slots0| && !ctrl0[n].Full? && slots0[n].None?
    requires Copied(w, cap, ctrl, slots, hash, ctrl0, slots0, n)
    ensures Copied(w, cap, ctrl, slots, hash, ctrl0, slots0, n + 1)
  {
    TallySnoc(ctrl0, n, KFull);
    ModelSnoc(slots0[..n + 1]);
    assert slots0[..n + 1][..n] == slots0[..n];
  }

  lemma CopyOne<K>(w: nat, cap: nat, ctrl: seq<Ctrl>, slots: seq<Option<K>>, hash: K -> HashVal,
                   ctrl0: seq<Ctrl>, slots0: seq<Option<K>>, n: nat, t: nat)
    requires n < |ctrl0| && n < |slots0| && ctrl0[n].Full? && slots0[n].Some? && Distinct(slots0)
    requires Copied(w, cap, ctrl, slots, hash, ctrl0, slots0, n)
    requires t < cap && IsHole(ctrl[t]) && Solid(w, cap, ctrl, hash(slots0[n].value).h1, t)
    ensures MirrorIndex(w, cap, t) < |ctrl|
    ensures Copied(w, cap, SetCtrl(w, cap, ctrl, t, Full(hash(slots0[n].value).h2)), slots[t := slots0[n]], hash,
                   ctrl0, slots0, n + 1)
  {
    var x := slots0[n].value;
    SetCtrlInBounds(w, cap, ctrl, t);
    var ctrl' := SetCtrl(w, cap, ctrl, t, Full(hash(x).h2));
    FreshValue(slots0, n);
    InsertInv(w, cap, ctrl, slots, hash, x, t, ctrl', slots[t := Some(x)]);
    TallyFill(w, cap, ctrl, t, hash(x).h2);
    TallySnoc(ctrl0, n, KFull);
  }

  lemma TallyFill(w: nat, cap: nat, ctrl: seq<Ctrl>, t: nat, h2: bv7)
    requires Shape(w, cap, ctrl) && t < cap && IsHole(ctrl[t]) && Tally(ctrl[..cap], KDeleted) == 0
    ensures MirrorIndex(w, cap, t) < |ctrl|
    ensures var ctrl' := SetCtrl(w, cap, ctrl, t, Full(h2));
            Tally(ctrl'[..cap], KDeleted) == 0 && Tally(ctrl'[..cap], KFull) == Tally(ctrl[..cap], KFull) + 1
  {
    SetCtrlInBounds(w, cap, ctrl, t);
    SetCtrlShape(w, cap, ctrl, t, Full(h2), SetCtrl(w, cap, ctrl, t, Full(h2)));
    TallyUpdate(ctrl[..cap], t, Full(h2), KFull);
    TallyUpdate(ctrl[..cap], t, Full(h2), KDeleted);
  }

  lemma FreshValue<K>(slots: seq<Option<K>>, n: nat)
    requires n < |slots| && slots[n].Some? && Distinct(slots)
    ensures slots[n].value !in Model(slots[..n])
    ensures Model(slots[..n + 1]) == Model(slots[..n]) + {slots[n].value}
  {
    var s := slots[..n];
    assert forall j :: 0 <= j < n ==> s[j] == slots[j];
    ModelSnoc(slots[..n + 1]);
    assert slots[..n + 1][..n] == s;
  }

  // -------------------------------------------------------------- steps of the in-place rehash

  lemma SetCtrlTally(w: nat, cap: nat, ctrl: seq<Ctrl>, i: nat, c: Ctrl, kind: Kind)
    requires Shape(w, cap, ctrl) && i < cap && c != Sentinel
    ensures MirrorIndex(w, cap, i) < |ctrl|
    ensures Tally(SetCtrl(w, cap, ctrl, i, c)[..cap], kind) ==
            Tally(ctrl[..cap], kind) - (if Is(ctrl[i], kind) then 1 else 0) + (if Is(c, kind) then 1 else 0)
  {
    SetCtrlInBounds(w, cap, ctrl, i);
    SetCtrlShape(w, cap, ctrl, i, c, SetCtrl(w, cap, ctrl, i, c));
    TallyUpdate(ctrl[..cap], i, c, kind);
  }

  /** Progress of one placement: one tombstone fewer, one full byte more, no new tombstone. */
  ghost predicate Placed(cap: nat, ctrl: seq<Ctrl>, ctrl': seq<Ctrl>) {
    && cap <= |ctrl| == |ctrl'|
    && Tally(ctrl'[..cap], KDeleted) + 1 == Tally(ctrl[..cap], KDeleted)
    && Tally(ctrl'[..cap], KFull) == Tally(ctrl[..cap], KFull) + 1
    && forall j :: 0 <= j < cap && ctrl'[j] == Deleted ==> ctrl[j] == Deleted
  }

  /** Loop invariant of the rehash: same elements, and as many full or unplaced slots as elements. */
  ghost predicate Rehashing<K>(w: nat, cap: nat, ctrl: seq<Ctrl>, slots: seq<Option<K>>, hash: K -> HashVal,
                               model: set<K>, size: nat) {
    && DropInv(w, cap, ctrl, slots, hash)
    && Model(slots) == model
    && Tally(ctrl[..cap], KFull) + Tally(ctrl[..cap], KDeleted) == size
  }

  /** Slots below i are done. */
  ghost predicate DoneBelow(ctrl: seq<Ctrl>, i: nat) {
    forall j :: 0 <= j < i && j < |ctrl| ==> ctrl[j] != Deleted
  }

  lemma DoneStep(cap: nat, ctrl: seq<Ctrl>, ctrl': seq<Ctrl>, i: nat)
    requires Placed(cap, ctrl, ctrl') && i < cap && DoneBelow(ctrl, i)
    ensures DoneBelow(ctrl', i) && (ctrl'[i] != Deleted ==> DoneBelow(ctrl', i + 1))
  {}

  lemma StayStep<K>(w: nat, cap: nat, ctrl: seq<Ctrl>, slots: seq<Option<K>>, hash: K -> HashVal, i: nat)
    requires DropInv(w, cap, ctrl, slots, hash) && i < cap && ctrl[i] == Deleted && slots[i].Some?
    requires Solid(w, cap, ctrl, hash(slots[i].value).h1, i)
    ensures MirrorIndex(w, cap, i) < |ctrl|
    ensures var ctrl' := SetCtrl(w, cap, ctrl, i, Full(hash(slots[i].value).h2));
            DropInv(w, cap, ctrl', slots, hash) && Placed(cap, ctrl, ctrl') && ctrl'[i] != Deleted
  {
    var c := Full(hash(slots[i].value).h2);
    SetCtrlTally(w, cap, ctrl, i, c, KDeleted);
    SetCtrlTally(w, cap, ctrl, i, c, KFull);
    SetCtrlShape(w, cap, ctrl, i, c, SetCtrl(w, cap, ctrl, i, c));
    DropStay(w, cap, ctrl, slots, hash, i, SetCtrl(w, cap, ctrl, i, c));
  }

  lemma MoveStep<K>(w: nat, cap: nat, ctrl: seq<Ctrl>, slots: seq<Option<K>>, hash: K -> HashVal, i: nat, t: nat)
    requires DropInv(w, cap, ctrl, slots, hash)
    requires i < cap && t < cap && ctrl[i] == Deleted && ctrl[t] == Empty && slots[i].Some?
    requires Solid(w, cap, ctrl, hash(slots[i].value).h1, t)
    ensures MirrorIndex(w, cap, t) < |ctrl| && MirrorIndex(w, cap, i) < |ctrl|
    ensures var ctrl' := SetCtrl(w, cap, SetCtrl(w, cap, ctrl, t, Full(hash(slots[i].value).h2)), i, Empty);
            var slots' := slots[t := slots[i]][i := None];
            && DropInv(w, cap, ctrl', slots', hash) && Model(slots') == Model(slots)
            && Placed(cap, ctrl, ctrl') && ctrl'[i] != Deleted
  {
    var c := Full(hash(slots[i].value).h2);
    SetCtrlInBounds(w, cap, ctrl, i);
    SetCtrlInBounds(w, cap, ctrl, t);
    var ctrl1 := SetCtrl(w, cap, ctrl, t, c);
    SetCtrlShape(w, cap, ctrl, t, c, ctrl1);
    var ctrl2 := SetCtrl(w, cap, ctrl1, i, Empty);
    SetCtrlShape(w, cap, ctrl1, i, Empty, ctrl2);
    SetCtrlTally(w, cap, ctrl, t, c, KDeleted);
    SetCtrlTally(w, cap, ctrl1, i, Empty, KDeleted);
    SetCtrlTally(w, cap, ctrl, t, c, KFull);
    SetCtrlTally(w, cap, ctrl1, i, Empty, KFull);
    DropMove(w, cap, ctrl, slots, hash, i, t, ctrl1, ctrl2, slots[t := slots[i]][i := None]);
  }

  lemma SwapStep<K>(w: nat, cap: nat, ctrl: seq<Ctrl>, slots: seq<Option<K>>, hash: K -> HashVal, i: nat, t: nat)
    requires DropInv(w, cap, ctrl, slots, hash)
    requires i < cap && t < cap && i != t && ctrl[i] == Deleted && ctrl[t] == Deleted && slots[i].Some?
    requires Solid(w, cap, ctrl, hash(slots[i].value).h1, t)
    ensures MirrorIndex(w, cap, t) < |ctrl|
    ensures var ctrl' := SetCtrl(w, cap, ctrl, t, Full(hash(slots[i].value).h2));
            var slots' := slots[t := slots[i]][i := slots[t]];
            DropInv(w, cap, ctrl', slots', hash) && Model(slots') == Model(slots) && Placed(cap, ctrl, ctrl')
  {
    var c := Full(hash(slots[i].value).h2);
    SetCtrlTally(w, cap, ctrl, t, c, KDeleted);
    SetCtrlTally(w, cap, ctrl, t, c, KFull);
    SetCtrlShape(w, cap, ctrl, t, c, SetCtrl(w, cap, ctrl, t, c));
    DropSwap(w, cap, ctrl, slots, hash, i, t, SetCtrl(w, cap, ctrl, t, c), slots[t := slots[i]][i := slots[t]]);
  }

  /** The conversion pass turns every full byte, and nothing else, into a tombstone. */
  lemma ConvertTally(w: nat, cap: nat, ctrl: seq<Ctrl>, ctrl': seq<Ctrl>)
    requires cap <= |ctrl| && cap <= |ctrl'| && forall i :: 0 <= i < cap ==> ctrl'[i] == Converted(ctrl[i])
    ensures Tally(ctrl'[..cap], KFull) == 0 && Tally(ctrl'[..cap], KDeleted) == Tally(ctrl[..cap], KFull)
  {
    ConvertTallySeq(ctrl[..cap], ctrl'[..cap]);
  }

  lemma {:induction false} ConvertTallySeq(s: seq<Ctrl>, s': seq<Ctrl>)
    requires |s| == |s'| && forall i :: 0 <= i < |s| ==> s'[i] == Converted(s[i])
    ensures Tally(s', KFull) == 0 && Tally(s', KDeleted) == Tally(s, KFull)
  {
    if s != [] {
      ConvertTallySeq(s[..|s| - 1], s'[..|s| - 1]);
    }
  }

  /** The rehash is complete: no tombstone left, same size, all growth restored. */
  lemma RehashDone<K>(w: nat, cap: nat, ctrl: seq<Ctrl>, slots: seq<Option<K>>, hash: K -> HashVal, size: nat)
    requires Rehashing(w, cap, ctrl, slots, hash, Model(slots), size)
    requires size <= CapacityToGrowth(w, cap) && DoneBelow(ctrl, cap)
    ensures Good(w, cap, ctrl, slots, hash, size, CapacityToGrowth(w, cap) - size)
    ensures Tally(ctrl[..cap], KDeleted) == 0
  {
    DropDone(w, cap, ctrl, slots, hash);
    TallyZero(ctrl[..cap], KDeleted);
  }

  // -------------------------------------------------------------- when to grow

  /** rehash_and_grow_if_necessary runs when no growth is left. Then a small table is full of live
      elements, so the in-place rehash is only ever chosen for large tables; each choice leaves room. */
  lemma GrowChoice(w: nat, cap: nat, ctrl: seq<Ctrl>, size: nat)
    requires Shape(w, cap, ctrl) && Accounts(w, cap, ctrl, size, 0)
    ensures cap == 0 ==> size == 0 && IsCapacity(1) && CapacityToGrowth(w, 1) == 1
    ensures cap > 0 && size <= CapacityToGrowth(w, cap) / 2 ==> cap + 1 >= w && size < CapacityToGrowth(w, cap)
    ensures cap > 0 ==> IsCapacity(2 * cap + 1) && size < CapacityToGrowth(w, 2 * cap + 1)
  {
    assert 1 + 1 == Arith.Pow2(1);
    GrowthLeavesRoom(w, cap);
    GrowthDoubles(w, cap);
  }

  /** size_ is the number of elements. */
  lemma SizeIsCardinality<K>(w: nat, cap: nat, ctrl: seq<Ctrl>, slots: seq<Option<K>>, hash: K -> HashVal,
                             size: nat, growthLeft: nat)
    requires Good(w, cap, ctrl, slots, hash, size, growthLeft)
    ensures size == |Model(slots)|
  {
    forall i | 0 <= i < cap ensures ctrl[..cap][i].Full? <==> slots[i].Some? {
      assert SlotOk(w, cap, ctrl, slots, hash, i);
    }
    FullCountsModel(ctrl[..cap], slots);
  }
}
