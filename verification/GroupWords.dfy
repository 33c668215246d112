/** The group operations as the table calls them: the 8-wide group by its 64-bit word, the 16-wide group by
    specification. Each is proved to compute the count or the bytes that the table proofs speak about. */
module GroupWords {
  import opened Group

  // ------------------------------------------------------------------ counts as numbers

  /** A byte count as a number. */
  function Number(r: bv64): (j: nat)
    ensures j <= 8 && (r <= 8 ==> r == Count(j))
  {
    if r == 0 then 0 else if r == 1 then 1 else if r == 2 then 2 else if r == 3 then 3
    else if r == 4 then 4 else if r == 5 then 5 else if r == 6 then 6 else if r == 7 then 7 else 8
  }

  /** The mask flags byte j. */
  predicate Flagged(mask: bv64, j: nat)
    requires j < 8
  {
    mask & Flag(j) != 0
  }

  lemma LowestBits(mask: bv64, r: bv64)
    requires r < 8 && mask & (0x80 << (8 * r)) != 0 && mask & ((0x80 << (8 * r)) - 1) == 0
    ensures r == 0 ==> mask & 0x80 != 0
    ensures r == 1 ==> mask & 0x8000 != 0 && mask & 0x80 == 0
    ensures r == 2 ==> mask & 0x80_0000 != 0 && mask & 0x80 == 0 && mask & 0x8000 == 0
    ensures r == 3 ==> mask & 0x8000_0000 != 0 && mask & 0x80 == 0 && mask & 0x8000 == 0 && mask & 0x80_0000 == 0
    ensures r == 4 ==>
      && mask & 0x80_0000_0000 != 0 && mask & 0x80 == 0 && mask & 0x8000 == 0 && mask & 0x80_0000 == 0
      && mask & 0x8000_0000 == 0
    ensures r == 5 ==>
      && mask & 0x8000_0000_0000 != 0 && mask & 0x80 == 0 && mask & 0x8000 == 0 && mask & 0x80_0000 == 0
      && mask & 0x8000_0000 == 0 && mask & 0x80_0000_0000 == 0
    ensures r == 6 ==>
      && mask & 0x80_0000_0000_0000 != 0 && mask & 0x80 == 0 && mask & 0x8000 == 0 && mask & 0x80_0000 == 0
      && mask & 0x8000_0000 == 0 && mask & 0x80_0000_0000 == 0 && mask & 0x8000_0000_0000 == 0
    ensures r == 7 ==>
      && mask & 0x8000_0000_0000_0000 != 0 && mask & 0x80 == 0 && mask & 0x8000 == 0 && mask & 0x80_0000 == 0
      && mask & 0x8000_0000 == 0 && mask & 0x80_0000_0000 == 0 && mask & 0x8000_0000_0000 == 0
      && mask & 0x80_0000_0000_0000 == 0
  {}

  lemma LowestIsFlag(mask: bv64, r: bv64, j: nat)
    requires r < 8 && j < 8 && r == Count(j)
    requires mask & (0x80 << (8 * r)) != 0 && mask & ((0x80 << (8 * r)) - 1) == 0
    ensures Flagged(mask, j) && forall i :: 0 <= i < j ==> !Flagged(mask, i)
  {
    LowestBits(mask, r);
  }

  /** CountLeadingZeros64Slow on a word. */
  method CountLeadingZerosWord(word: bv64) returns (z: bv64)
    requires word != 0
    ensures z < 64 && word >> (63 - z) == 1
  {
    var n := word;
    z := 60;
    if n >> 32 != 0 { z, n := z - 32, n >> 32; }
    if n >> 16 != 0 { z, n := z - 16, n >> 16; }
    if n >> 8 != 0 { z, n := z - 8, n >> 8; }
    if n >> 4 != 0 { z, n := z - 4, n >> 4; }
    z := z + (if n >= 8 then 0 else if n >= 4 then 1 else if n >= 2 then 2 else if n >= 1 then 3 else 4);
  }

  /** BitMask::LeadingZeros for the byte-wide masks of the portable group: bytes above the highest flag. */
  method LeadingZeros(mask: bv64) returns (r: bv64)
    requires mask != 0 && mask & !MSBS == 0
    ensures r < 8 && mask & (0x8000_0000_0000_0000 >> (8 * r)) != 0
    ensures mask >> (64 - 8 * r) == 0
  {
    var z := CountLeadingZerosWord(mask);
    r := z >> 3;
  }

  lemma HighestBits(mask: bv64, r: bv64)
    requires r < 8 && mask & (0x8000_0000_0000_0000 >> (8 * r)) != 0 && mask >> (64 - 8 * r) == 0
    ensures r == 0 ==> mask & 0x8000_0000_0000_0000 != 0
    ensures r == 1 ==> mask & 0x80_0000_0000_0000 != 0 && mask & 0x8000_0000_0000_0000 == 0
    ensures r == 2 ==>
      && mask & 0x8000_0000_0000 != 0 && mask & 0x80_0000_0000_0000 == 0 && mask & 0x8000_0000_0000_0000 == 0
    ensures r == 3 ==>
      && mask & 0x80_0000_0000 != 0 && mask & 0x8000_0000_0000 == 0 && mask & 0x80_0000_0000_0000 == 0
      && mask & 0x8000_0000_0000_0000 == 0
    ensures r == 4 ==>
      && mask & 0x8000_0000 != 0 && mask & 0x80_0000_0000 == 0 && mask & 0x8000_0000_0000 == 0
      && mask & 0x80_0000_0000_0000 == 0 && mask & 0x8000_0000_0000_0000 == 0
    ensures r == 5 ==>
      && mask & 0x80_0000 != 0 && mask & 0x8000_0000 == 0 && mask & 0x80_0000_0000 == 0
      && mask & 0x8000_0000_0000 == 0 && mask & 0x80_0000_0000_0000 == 0 && mask & 0x8000_0000_0000_0000 == 0
    ensures r == 6 ==>
      && mask & 0x8000 != 0 && mask & 0x80_0000 == 0 && mask & 0x8000_0000 == 0 && mask & 0x80_0000_0000 == 0
      && mask & 0x8000_0000_0000 == 0 && mask & 0x80_0000_0000_0000 == 0 && mask & 0x8000_0000_0000_0000 == 0
    ensures r == 7 ==>
      && mask & 0x80 != 0 && mask & 0x8000 == 0 && mask & 0x80_0000 == 0 && mask & 0x8000_0000 == 0
      && mask & 0x80_0000_0000 == 0 && mask & 0x8000_0000_0000 == 0 && mask & 0x80_0000_0000_0000 == 0
      && mask & 0x8000_0000_0000_0000 == 0
  {}

  lemma HighestIsFlag(mask: bv64, k: nat)
    requires k < 8
    requires k == 0 ==> mask & 0x8000_0000_0000_0000 != 0
    requires k == 1 ==> mask & 0x80_0000_0000_0000 != 0 && mask & 0x8000_0000_0000_0000 == 0
    requires k == 2 ==>
      && mask & 0x8000_0000_0000 != 0 && mask & 0x80_0000_0000_0000 == 0 && mask & 0x8000_0000_0000_0000 == 0
    requires k == 3 ==>
      && mask & 0x80_0000_0000 != 0 && mask & 0x8000_0000_0000 == 0 && mask & 0x80_0000_0000_0000 == 0
      && mask & 0x8000_0000_0000_0000 == 0
    requires k == 4 ==>
      && mask & 0x8000_0000 != 0 && mask & 0x80_0000_0000 == 0 && mask & 0x8000_0000_0000 == 0
      && mask & 0x80_0000_0000_0000 == 0 && mask & 0x8000_0000_0000_0000 == 0
    requires k == 5 ==>
      && mask & 0x80_0000 != 0 && mask & 0x8000_0000 == 0 && mask & 0x80_0000_0000 == 0
      && mask & 0x8000_0000_0000 == 0 && mask & 0x80_0000_0000_0000 == 0 && mask & 0x8000_0000_0000_0000 == 0
    requires k == 6 ==>
      && mask & 0x8000 != 0 && mask & 0x80_0000 == 0 && mask & 0x8000_0000 == 0 && mask & 0x80_0000_0000 == 0
      && mask & 0x8000_0000_0000 == 0 && mask & 0x80_0000_0000_0000 == 0 && mask & 0x8000_0000_0000_0000 == 0
    requires k == 7 ==>
      && mask & 0x80 != 0 && mask & 0x8000 == 0 && mask & 0x80_0000 == 0 && mask & 0x8000_0000 == 0
      && mask & 0x80_0000_0000 == 0 && mask & 0x8000_0000_0000 == 0 && mask & 0x80_0000_0000_0000 == 0
      && mask & 0x8000_0000_0000_0000 == 0
    ensures Flagged(mask, 7 - k) && forall i :: 8 - k <= i < 8 ==> !Flagged(mask, i)
  {}

  // ------------------------------------------------------------------ masks of a group

  /** TrailingZeros of a flag mask: bytes below the lowest flag, or 8 if no flag is set. */
  method LowestByte(mask: bv64) returns (j: nat)
    requires mask & !MSBS == 0
    ensures j <= 8 && (j < 8 ==> Flagged(mask, j)) && forall i :: 0 <= i < j ==> !Flagged(mask, i)
  {
    if mask == 0 { return 8; }
    var r := LowestBitSet(mask);
    j := Number(r);
    LowestIsFlag(mask, r, j);
  }

  /** LeadingZeros of a flag mask: bytes above the highest flag, or 8 if no flag is set. */
  method BytesAboveHighest(mask: bv64) returns (k: nat)
    requires mask & !MSBS == 0
    ensures k <= 8 && (k < 8 ==> Flagged(mask, 7 - k)) && forall i :: 8 - k <= i < 8 ==> !Flagged(mask, i)
  {
    if mask == 0 { return 8; }
    var r := LeadingZeros(mask);
    k := Number(r);
    HighestBits(mask, r);
    HighestIsFlag(mask, k);
  }

  /** MatchEmpty on the word. */
  method EmptyMask(g: seq<Ctrl>) returns (mask: bv64)
    requires |g| == 8
    ensures mask & !MSBS == 0 && forall i :: 0 <= i < 8 ==> (Flagged(mask, i) <==> g[i] == Empty)
  {
    mask := MatchEmptyWord(Load64(g));
    forall i | 0 <= i < 8 ensures Flagged(mask, i) <==> g[i] == Empty { MatchEmptyExact(g, i); }
    MatchEmptyExact(g, 0);
  }

  /** MatchEmptyOrDeleted on the word. */
  method HoleMask(g: seq<Ctrl>) returns (mask: bv64)
    requires |g| == 8
    ensures mask & !MSBS == 0 && forall i :: 0 <= i < 8 ==> (Flagged(mask, i) <==> IsHole(g[i]))
  {
    mask := MatchEmptyOrDeletedWord(Load64(g));
    forall i | 0 <= i < 8 ensures Flagged(mask, i) <==> IsHole(g[i]) { MatchEmptyOrDeletedExact(g, i); }
    MatchEmptyOrDeletedExact(g, 0);
  }

  // ------------------------------------------------------------------ what the table calls

  /** MatchEmptyOrDeleted().LowestBitSet(): the first hole of the group, or its width. */
  method FindFirstHole(g: seq<Ctrl>) returns (j: nat)
    requires |g| == 8 || |g| == 16
    ensures j == FirstHole(g)
  {
    if |g| == 16 { return FirstHole(g); }
    var mask := HoleMask(g);
    j := LowestByte(mask);
  }

  /** MatchEmpty().TrailingZeros(): bytes before the first Empty one, or the width. */
  method CountBeforeEmpty(g: seq<Ctrl>) returns (j: nat)
    requires |g| == 8 || |g| == 16
    ensures j == FirstEmpty(g)
  {
    if |g| == 16 { return FirstEmpty(g); }
    var mask := EmptyMask(g);
    j := LowestByte(mask);
  }

  /** MatchEmpty().LeadingZeros(): bytes after the last Empty one, or the width. */
  method CountAfterEmpty(g: seq<Ctrl>) returns (k: nat)
    requires |g| == 8 || |g| == 16
    ensures k == LastEmpty(g)
  {
    if |g| == 16 { return LastEmpty(g); }
    var mask := EmptyMask(g);
    k := BytesAboveHighest(mask);
  }

  // ------------------------------------------------------------------ storing a converted word

  /** The control byte that a stored byte is. */
  function FromByte(b: bv8): Ctrl {
    if b == 0x80 then Empty else if b == 0xFE then Deleted else if b == 0xFF then Sentinel else Full((b & 0x7F) as bv7)
  }

  lemma ByteRoundTrip(c: Ctrl)
    ensures FromByte(Byte(c)) == c
  {}

  /** Byte j of a word. */
  function ByteOf(word: bv64, j: nat): bv8
    requires j < 8
  {
    if j == 0 then (word & 0xFF) as bv8 else if j == 1 then ((word >> 8) & 0xFF) as bv8
    else if j == 2 then ((word >> 16) & 0xFF) as bv8 else if j == 3 then ((word >> 24) & 0xFF) as bv8
    else if j == 4 then ((word >> 32) & 0xFF) as bv8 else if j == 5 then ((word >> 40) & 0xFF) as bv8
    else if j == 6 then ((word >> 48) & 0xFF) as bv8 else ((word >> 56) & 0xFF) as bv8
  }

  lemma ByteOfLoad(g: seq<Ctrl>, j: nat)
    requires |g| == 8 && j < 8
    ensures ByteOf(Load64(g), j) == Byte(g[j])
  {}

  /** ConvertSpecialToEmptyAndFullToDeleted: load, convert the word, store. */
  method ConvertGroup(g: seq<Ctrl>) returns (g': seq<Ctrl>)
    requires |g| == 8 || |g| == 16
    ensures |g'| == |g| && forall j :: 0 <= j < |g| ==> g'[j] == Converted(g[j])
  {
    if |g| == 16 {
      g' := seq(16, j requires 0 <= j < 16 => Converted(g[j]));
      return;
    }
    ghost var goal := seq(8, j requires 0 <= j < 8 => Converted(g[j]));
    ConvertExact(g, goal);
    var word := ConvertWord(Load64(g));
    g' := seq(8, j requires 0 <= j < 8 => FromByte(ByteOf(word, j)));
    forall j | 0 <= j < 8 ensures g'[j] == goal[j] {
      ByteOfLoad(goal, j);
      ByteRoundTrip(goal[j]);
    }
  }
}
