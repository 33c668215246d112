/** Control bytes and the group operations of the Swiss table.
    The group operations are specified on a window of control bytes; the portable
    (64-bit word) implementation is proved against those specifications. */
module Group {

  /** A control byte: three special markers, or the low seven bits of the hash of an element. */
  datatype Ctrl = Empty | Deleted | Sentinel | Full(h2: bv7)

  // ------------------------------------------------------------------ specification

  predicate IsHole(c: Ctrl) { c.Empty? || c.Deleted? }

  /** Number of leading bytes before the first Empty one: TrailingZeros of MatchEmpty. */
  function FirstEmpty(g: seq<Ctrl>): (r: nat)
    ensures r <= |g| && (r < |g| ==> g[r] == Empty) && forall j :: 0 <= j < r ==> g[j] != Empty
  {
    if g == [] || g[0] == Empty then 0 else 1 + FirstEmpty(g[1..])
  }

  /** Number of trailing bytes after the last Empty one: LeadingZeros of MatchEmpty. */
  function LastEmpty(g: seq<Ctrl>): (r: nat)
    ensures r <= |g| && (r < |g| ==> g[|g| - 1 - r] == Empty)
    ensures forall j :: |g| - r <= j < |g| ==> g[j] != Empty
  {
    if g == [] || g[|g| - 1] == Empty then 0 else 1 + LastEmpty(g[..|g| - 1])
  }

  /** Position of the first Empty or Deleted byte: LowestBitSet of MatchEmptyOrDeleted. */
  function FirstHole(g: seq<Ctrl>): (r: nat)
    ensures r <= |g| && (r < |g| ==> IsHole(g[r])) && forall j :: 0 <= j < r ==> !IsHole(g[j])
  {
    if g == [] || IsHole(g[0]) then 0 else 1 + FirstHole(g[1..])
  }

  /** Number of Empty or Deleted bytes that the group starts with. */
  function LeadingHoles(g: seq<Ctrl>): (r: nat)
    ensures r <= |g| && (r < |g| ==> !IsHole(g[r])) && forall j :: 0 <= j < r ==> IsHole(g[j])
  {
    if g == [] || !IsHole(g[0]) then 0 else 1 + LeadingHoles(g[1..])
  }

  /** The in-place rehash starts by turning DELETED into EMPTY and FULL into DELETED. */
  function Converted(c: Ctrl): Ctrl {
    if c.Full? then Deleted else Empty
  }

  // ------------------------------------------------------------ portable words

  const MSBS: bv64 := 0x8080_8080_8080_8080
  const LSBS: bv64 := 0x0101_0101_0101_0101
  const GAPS: bv64 := 0x00FE_FEFE_FEFE_FEFE

  function Byte(c: Ctrl): bv8 {
    match c
    case Empty => 0x80
    case Deleted => 0xFE
    case Sentinel => 0xFF
    case Full(h) => h as bv8
  }

  /** Little-endian load of eight bytes. */
  function Pack(b0: bv8, b1: bv8, b2: bv8, b3: bv8, b4: bv8, b5: bv8, b6: bv8, b7: bv8): bv64 {
    (b0 as bv64) | ((b1 as bv64) << 8) | ((b2 as bv64) << 16) | ((b3 as bv64) << 24)
    | ((b4 as bv64) << 32) | ((b5 as bv64) << 40) | ((b6 as bv64) << 48) | ((b7 as bv64) << 56)
  }

  function Load64(g: seq<Ctrl>): bv64
    requires |g| == 8
  {
    Pack(Byte(g[0]), Byte(g[1]), Byte(g[2]), Byte(g[3]), Byte(g[4]), Byte(g[5]), Byte(g[6]), Byte(g[7]))
  }

  /** The flag of byte `j` in a group bitmask (one 0x80 per matching byte). */
  function Flag(j: nat): bv64
    requires j < 8
  {
    if j == 0 then 0x80 else if j == 1 then 0x8000 else if j == 2 then 0x80_0000
    else if j == 3 then 0x8000_0000 else if j == 4 then 0x80_0000_0000
    else if j == 5 then 0x8000_0000_0000 else if j == 6 then 0x80_0000_0000_0000
    else 0x8000_0000_0000_0000
  }

  /** The bytes of the group compared with the hash: equal bytes become zero. */
  function Against(ctrl: bv64, hash: bv7): bv64 {
    ctrl ^ (LSBS * (hash as bv64))
  }

  /** The zero-byte test. */
  function ZeroBytes(x: bv64): bv64 {
    (x - LSBS) & !x & MSBS
  }

  function MatchWord(ctrl: bv64, hash: bv7): bv64 {
    ZeroBytes(Against(ctrl, hash))
  }

  function MatchEmptyWord(ctrl: bv64): bv64 {
    (ctrl & (!ctrl << 6)) & MSBS
  }

  function MatchEmptyOrDeletedWord(ctrl: bv64): bv64 {
    (ctrl & (!ctrl << 7)) & MSBS
  }

  function ConvertWord(ctrl: bv64): bv64 {
    var x := ctrl & MSBS;
    (!x + (x >> 7)) & !LSBS
  }

  /** MatchEmpty is exact: the flag of byte j is set iff the byte is Empty, and nothing else is set. */
  lemma MatchEmptyExact(g: seq<Ctrl>, j: nat)
    requires |g| == 8 && j < 8
    ensures MatchEmptyWord(Load64(g)) & Flag(j) != 0 <==> g[j] == Empty
    ensures MatchEmptyWord(Load64(g)) & !MSBS == 0
  {
    var b := Byte(g[j]);
    assert (b & 0x80 != 0 && b & 0x02 == 0) <==> g[j] == Empty by { ByteCases(g[j]); }
  }

  lemma ByteCases(c: Ctrl)
    ensures (Byte(c) & 0x80 != 0 && Byte(c) & 0x02 == 0) <==> c == Empty
    ensures (Byte(c) & 0x80 != 0 && Byte(c) & 0x01 == 0) <==> IsHole(c)
    ensures Byte(c) & 0x80 == 0 <==> c.Full?
  {}

  /** MatchEmptyOrDeleted is exact. */
  lemma MatchEmptyOrDeletedExact(g: seq<Ctrl>, j: nat)
    requires |g| == 8 && j < 8
    ensures MatchEmptyOrDeletedWord(Load64(g)) & Flag(j) != 0 <==> IsHole(g[j])
    ensures MatchEmptyOrDeletedWord(Load64(g)) & !MSBS == 0
  {
    ByteCases(g[j]);
  }

  /** Match reports every byte that holds the hash, and only bytes of full slots. */
  lemma MatchSound(g: seq<Ctrl>, hash: bv7, j: nat)
    requires |g| == 8 && j < 8
    ensures g[j] == Full(hash) ==> MatchWord(Load64(g), hash) & Flag(j) != 0
    ensures MatchWord(Load64(g), hash) & Flag(j) != 0 ==> g[j].Full?
    ensures MatchWord(Load64(g), hash) & !MSBS == 0
  {
    ByteCases(g[j]);
  }

  // Bytes that differ from the hash are not zero after the xor with the repeated hash.

  lemma XorByte0(b0: bv8, b1: bv8, b2: bv8, b3: bv8, b4: bv8, b5: bv8, b6: bv8, b7: bv8, h: bv7, p: bv64, x: bv64)
    requires p == Pack(b0, b1, b2, b3, b4, b5, b6, b7) && x == Against(p, h)
    ensures b0 != h as bv8 ==> x & 0xFF != 0
  {}

  lemma XorByte1(b0: bv8, b1: bv8, b2: bv8, b3: bv8, b4: bv8, b5: bv8, b6: bv8, b7: bv8, h: bv7, p: bv64, x: bv64)
    requires p == Pack(b0, b1, b2, b3, b4, b5, b6, b7) && x == Against(p, h)
    ensures b1 != h as bv8 ==> x & 0xFF00 != 0
  {}

  lemma XorByte2(b0: bv8, b1: bv8, b2: bv8, b3: bv8, b4: bv8, b5: bv8, b6: bv8, b7: bv8, h: bv7, p: bv64, x: bv64)
    requires p == Pack(b0, b1, b2, b3, b4, b5, b6, b7) && x == Against(p, h)
    ensures b2 != h as bv8 ==> x & 0xFF_0000 != 0
  {}

  lemma XorByte3(b0: bv8, b1: bv8, b2: bv8, b3: bv8, b4: bv8, b5: bv8, b6: bv8, b7: bv8, h: bv7, p: bv64, x: bv64)
    requires p == Pack(b0, b1, b2, b3, b4, b5, b6, b7) && x == Against(p, h)
    ensures b3 != h as bv8 ==> x & 0xFF00_0000 != 0
  {}

  lemma XorByte4(b0: bv8, b1: bv8, b2: bv8, b3: bv8, b4: bv8, b5: bv8, b6: bv8, b7: bv8, h: bv7, p: bv64, x: bv64)
    requires p == Pack(b0, b1, b2, b3, b4, b5, b6, b7) && x == Against(p, h)
    ensures b4 != h as bv8 ==> x & 0xFF_0000_0000 != 0
  {}

  lemma XorByte5(b0: bv8, b1: bv8, b2: bv8, b3: bv8, b4: bv8, b5: bv8, b6: bv8, b7: bv8, h: bv7, p: bv64, x: bv64)
    requires p == Pack(b0, b1, b2, b3, b4, b5, b6, b7) && x == Against(p, h)
    ensures b5 != h as bv8 ==> x & 0xFF00_0000_0000 != 0
  {}

  lemma XorByte6(b0: bv8, b1: bv8, b2: bv8, b3: bv8, b4: bv8, b5: bv8, b6: bv8, b7: bv8, h: bv7, p: bv64, x: bv64)
    requires p == Pack(b0, b1, b2, b3, b4, b5, b6, b7) && x == Against(p, h)
    ensures b6 != h as bv8 ==> x & 0xFF_0000_0000_0000 != 0
  {}

  lemma XorByte7(b0: bv8, b1: bv8, b2: bv8, b3: bv8, b4: bv8, b5: bv8, b6: bv8, b7: bv8, h: bv7, p: bv64, x: bv64)
    requires p == Pack(b0, b1, b2, b3, b4, b5, b6, b7) && x == Against(p, h)
    ensures b7 != h as bv8 ==> x & 0xFF00_0000_0000_0000 != 0
  {}

  lemma XorDiffers(b0: bv8, b1: bv8, b2: bv8, b3: bv8, b4: bv8, b5: bv8, b6: bv8, b7: bv8, h: bv7, p: bv64, x: bv64)
    requires p == Pack(b0, b1, b2, b3, b4, b5, b6, b7) && x == Against(p, h)
    ensures b0 != h as bv8 ==> x & 0xFF != 0
    ensures b1 != h as bv8 ==> x & 0xFF00 != 0
    ensures b2 != h as bv8 ==> x & 0xFF_0000 != 0
    ensures b3 != h as bv8 ==> x & 0xFF00_0000 != 0
    ensures b4 != h as bv8 ==> x & 0xFF_0000_0000 != 0
    ensures b5 != h as bv8 ==> x & 0xFF00_0000_0000 != 0
    ensures b6 != h as bv8 ==> x & 0xFF_0000_0000_0000 != 0
    ensures b7 != h as bv8 ==> x & 0xFF00_0000_0000_0000 != 0
  {
    XorByte0(b0, b1, b2, b3, b4, b5, b6, b7, h, p, x);
    XorByte1(b0, b1, b2, b3, b4, b5, b6, b7, h, p, x);
    XorByte2(b0, b1, b2, b3, b4, b5, b6, b7, h, p, x);
    XorByte3(b0, b1, b2, b3, b4, b5, b6, b7, h, p, x);
    XorByte4(b0, b1, b2, b3, b4, b5, b6, b7, h, p, x);
    XorByte5(b0, b1, b2, b3, b4, b5, b6, b7, h, p, x);
    XorByte6(b0, b1, b2, b3, b4, b5, b6, b7, h, p, x);
    XorByte7(b0, b1, b2, b3, b4, b5, b6, b7, h, p, x);
  }

  /** Subtracting one from each byte borrows only out of zero bytes: while byte j and the bytes below it
      are not zero, the zero-byte test does not flag byte j. */
  lemma NoBorrow(x: bv64, w: bv64)
    requires w == ZeroBytes(x)
    ensures x & 0xFF != 0 ==> w & 0x80 == 0
    ensures x & 0xFF != 0 && x & 0xFF00 != 0 ==> w & 0x8000 == 0
    ensures x & 0xFF != 0 && x & 0xFF00 != 0 && x & 0xFF_0000 != 0 ==> w & 0x80_0000 == 0
    ensures x & 0xFF != 0 && x & 0xFF00 != 0 && x & 0xFF_0000 != 0 && x & 0xFF00_0000 != 0 ==> w & 0x8000_0000 == 0
    ensures (x & 0xFF != 0 && x & 0xFF00 != 0 && x & 0xFF_0000 != 0 && x & 0xFF00_0000 != 0
             && x & 0xFF_0000_0000 != 0) ==>
      w & 0x80_0000_0000 == 0
    ensures (x & 0xFF != 0 && x & 0xFF00 != 0 && x & 0xFF_0000 != 0 && x & 0xFF00_0000 != 0 && x & 0xFF_0000_0000 != 0
             && x & 0xFF00_0000_0000 != 0) ==>
      w & 0x8000_0000_0000 == 0
    ensures (x & 0xFF != 0 && x & 0xFF00 != 0 && x & 0xFF_0000 != 0 && x & 0xFF00_0000 != 0 && x & 0xFF_0000_0000 != 0
             && x & 0xFF00_0000_0000 != 0 && x & 0xFF_0000_0000_0000 != 0) ==>
      w & 0x80_0000_0000_0000 == 0
    ensures (x & 0xFF != 0 && x & 0xFF00 != 0 && x & 0xFF_0000 != 0 && x & 0xFF00_0000 != 0 && x & 0xFF_0000_0000 != 0
             && x & 0xFF00_0000_0000 != 0 && x & 0xFF_0000_0000_0000 != 0 && x & 0xFF00_0000_0000_0000 != 0) ==>
      w & 0x8000_0000_0000_0000 == 0
  {}

  lemma FlagsBelow(b0: bv8, b1: bv8, b2: bv8, b3: bv8, b4: bv8, b5: bv8, b6: bv8, b7: bv8, h: bv8, x: bv64, w: bv64)
    requires w == ZeroBytes(x)
    requires b0 != h ==> x & 0xFF != 0
    requires b1 != h ==> x & 0xFF00 != 0
    requires b2 != h ==> x & 0xFF_0000 != 0
    requires b3 != h ==> x & 0xFF00_0000 != 0
    requires b4 != h ==> x & 0xFF_0000_0000 != 0
    requires b5 != h ==> x & 0xFF00_0000_0000 != 0
    requires b6 != h ==> x & 0xFF_0000_0000_0000 != 0
    requires b7 != h ==> x & 0xFF00_0000_0000_0000 != 0
    ensures b0 != h ==> w & 0x80 == 0
    ensures b0 != h && b1 != h ==> w & 0x8000 == 0
    ensures b0 != h && b1 != h && b2 != h ==> w & 0x80_0000 == 0
    ensures b0 != h && b1 != h && b2 != h && b3 != h ==> w & 0x8000_0000 == 0
    ensures b0 != h && b1 != h && b2 != h && b3 != h && b4 != h ==> w & 0x80_0000_0000 == 0
    ensures b0 != h && b1 != h && b2 != h && b3 != h && b4 != h && b5 != h ==> w & 0x8000_0000_0000 == 0
    ensures b0 != h && b1 != h && b2 != h && b3 != h && b4 != h && b5 != h && b6 != h ==> w & 0x80_0000_0000_0000 == 0
    ensures b0 != h && b1 != h && b2 != h && b3 != h && b4 != h && b5 != h && b6 != h && b7 != h ==>
      w & 0x8000_0000_0000_0000 == 0
  {
    NoBorrow(x, w);
  }

  /** The same for a packed group and the match word. */
  lemma NoHashNoFlag(b0: bv8, b1: bv8, b2: bv8, b3: bv8, b4: bv8, b5: bv8, b6: bv8, b7: bv8, h: bv7, p: bv64, w: bv64)
    requires p == Pack(b0, b1, b2, b3, b4, b5, b6, b7) && w == MatchWord(p, h)
    ensures b0 != h as bv8 ==> w & 0x80 == 0
    ensures b0 != h as bv8 && b1 != h as bv8 ==> w & 0x8000 == 0
    ensures b0 != h as bv8 && b1 != h as bv8 && b2 != h as bv8 ==> w & 0x80_0000 == 0
    ensures b0 != h as bv8 && b1 != h as bv8 && b2 != h as bv8 && b3 != h as bv8 ==> w & 0x8000_0000 == 0
    ensures b0 != h as bv8 && b1 != h as bv8 && b2 != h as bv8 && b3 != h as bv8 && b4 != h as bv8 ==>
      w & 0x80_0000_0000 == 0
    ensures b0 != h as bv8 && b1 != h as bv8 && b2 != h as bv8 && b3 != h as bv8 && b4 != h as bv8 && b5 != h as bv8 ==>
      w & 0x8000_0000_0000 == 0
    ensures (b0 != h as bv8 && b1 != h as bv8 && b2 != h as bv8 && b3 != h as bv8 && b4 != h as bv8 && b5 != h as bv8
             && b6 != h as bv8) ==>
      w & 0x80_0000_0000_0000 == 0
    ensures (b0 != h as bv8 && b1 != h as bv8 && b2 != h as bv8 && b3 != h as bv8 && b4 != h as bv8 && b5 != h as bv8
             && b6 != h as bv8 && b7 != h as bv8) ==>
      w & 0x8000_0000_0000_0000 == 0
  {
    var x := Against(p, h);
    XorDiffers(b0, b1, b2, b3, b4, b5, b6, b7, h, p, x);
    FlagsBelow(b0, b1, b2, b3, b4, b5, b6, b7, h as bv8, x, w);
  }

  lemma ByteIsHash(c: Ctrl, h: bv7)
    ensures Byte(c) == h as bv8 <==> c == Full(h)
  {}

  /** Every flag of Match has a true match at its byte or below: a false positive needs a real match. */
  lemma FlagNeedsMatch(g: seq<Ctrl>, hash: bv7, j: nat)
    requires |g| == 8 && j < 8 && MatchWord(Load64(g), hash) & Flag(j) != 0
    ensures exists i :: 0 <= i <= j && g[i] == Full(hash)
  {
    NoHashNoFlag(Byte(g[0]), Byte(g[1]), Byte(g[2]), Byte(g[3]), Byte(g[4]), Byte(g[5]), Byte(g[6]), Byte(g[7]), hash,
      Load64(g), MatchWord(Load64(g), hash));
    forall i | 0 <= i < 8 ensures Byte(g[i]) == hash as bv8 <==> g[i] == Full(hash) { ByteIsHash(g[i], hash); }
  }

  /** Group::Match: the portable word trick for groups of 8, an exact comparison for the
      16-wide group. Every true match is reported; false positives only on full bytes. */
  method Match(g: seq<Ctrl>, hash: bv7) returns (mask: seq<bool>)
    requires |g| == 8 || |g| == 16
    ensures |mask| == |g|
    ensures forall j :: 0 <= j < |g| ==> (g[j] == Full(hash) ==> mask[j]) && (mask[j] ==> g[j].Full?)
  {
    if |g| == 8 {
      var word := MatchWord(Load64(g), hash);
      mask := seq(8, j requires 0 <= j < 8 => word & Flag(j) != 0);
      forall j | 0 <= j < 8
        ensures (g[j] == Full(hash) ==> mask[j]) && (mask[j] ==> g[j].Full?) {
        MatchSound(g, hash, j);
      }
    } else {
      mask := seq(16, j requires 0 <= j < 16 => g[j] == Full(hash));
    }
  }

  /** The conversion word trick applies `Converted` to each byte. */
  lemma ConvertExact(g: seq<Ctrl>, g': seq<Ctrl>)
    requires |g| == |g'| == 8 && forall j :: 0 <= j < 8 ==> g'[j] == Converted(g[j])
    ensures ConvertWord(Load64(g)) == Load64(g')
  {
    forall j | 0 <= j < 8 ensures Byte(g'[j]) == (if Byte(g[j]) & 0x80 == 0 then 0xFE else 0x80) {
      ByteCases(g[j]);
    }
    PackedConvert(Byte(g[0]), Byte(g[1]), Byte(g[2]), Byte(g[3]), Byte(g[4]), Byte(g[5]), Byte(g[6]), Byte(g[7]));
  }

  function ConvertByte(b: bv8): bv8 {
    if b & 0x80 == 0 then 0xFE else 0x80
  }

  lemma PackedConvert(b0: bv8, b1: bv8, b2: bv8, b3: bv8, b4: bv8, b5: bv8, b6: bv8, b7: bv8)
    ensures ConvertWord(Pack(b0, b1, b2, b3, b4, b5, b6, b7))
         == Pack(ConvertByte(b0), ConvertByte(b1), ConvertByte(b2), ConvertByte(b3),
                 ConvertByte(b4), ConvertByte(b5), ConvertByte(b6), ConvertByte(b7))
  {}

  // ------------------------------------------------------------------ bit counting

  /** The masks of CountTrailingZerosNonZero64Slow find the index of a single bit. */
  method BitIndex(m: bv64) returns (c: bv64)
    requires m != 0 && m & (m - 1) == 0
    ensures c < 64 && m == 1 << c
  {
    c := 63;
    if m & 0x0000_0000_FFFF_FFFF != 0 { c := c - 32; }
    if m & 0x0000_FFFF_0000_FFFF != 0 { c := c - 16; }
    if m & 0x00FF_00FF_00FF_00FF != 0 { c := c - 8; }
    if m & 0x0F0F_0F0F_0F0F_0F0F != 0 { c := c - 4; }
    if m & 0x3333_3333_3333_3333 != 0 { c := c - 2; }
    if m & 0x5555_5555_5555_5555 != 0 { c := c - 1; }
  }

  lemma LowestBit(n: bv64, m: bv64)
    requires n != 0 && m == n & (!n + 1)
    ensures m != 0 && m & (m - 1) == 0 && n & m == m && n & (m - 1) == 0
  {}

  lemma BitAt(n: bv64, m: bv64, c: bv64)
    requires c < 64 && m == 1 << c && n & m == m
    ensures (n >> c) & 1 == 1
  {}

  /** CountTrailingZerosNonZero64Slow. */
  method CountTrailingZeros64(n: bv64) returns (c: bv64)
    requires n != 0
    ensures c < 64 && (n >> c) & 1 == 1 && n & ((1 << c) - 1) == 0
  {
    var m := n & (!n + 1);
    LowestBit(n, m);
    c := BitIndex(m);
    BitAt(n, m, c);
  }

  /** BitMask::LowestBitSet for the byte-wide masks of the portable group. */
  method LowestBitSet(mask: bv64) returns (r: bv64)
    requires mask != 0 && mask & !MSBS == 0
    ensures r < 8
    ensures mask & (0x80 << (8 * r)) != 0 && mask & ((0x80 << (8 * r)) - 1) == 0
  {
    var c := CountTrailingZeros64(mask);
    r := c >> 3;
  }

  function Count(j: nat): bv64
    requires j <= 8
  {
    if j == 0 then 0 else if j == 1 then 1 else if j == 2 then 2 else if j == 3 then 3
    else if j == 4 then 4 else if j == 5 then 5 else if j == 6 then 6 else if j == 7 then 7 else 8
  }

  /** GroupPortableImpl::CountLeadingEmptyOrDeleted. */
  method CountLeadingEmptyOrDeleted(g: seq<Ctrl>) returns (r: bv64)
    requires |g| == 8
    ensures r == Count(LeadingHoles(g))
  {
    var ctrl := Load64(g);
    var c := CountTrailingZeros64(((!ctrl & (ctrl >> 7)) | GAPS) + 1);
    r := (c + 7) >> 3;
    forall j | 0 <= j < 8 ensures (Byte(g[j]) & 0x80 != 0 && Byte(g[j]) & 0x01 == 0) <==> IsHole(g[j]) {
      ByteCases(g[j]);
    }
  }
}
