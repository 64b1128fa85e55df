/** Recognising a 64-bit immediate whose bytes contain the ENDBR64 marker
    of Intel Control-flow Enforcement Technology (Intel SDM Vol. 2,
    ENDBR64): the bytes 0F 1E FA in the low 24 bits, then zero or more
    legacy prefix bytes, then F3. */
module X86Endbr {

  /** The legacy prefixes that may sit between F3 and 0F 1E FA: the segment
      overrides, operand- and address-size overrides, LOCK and REPNE. */
  const OptionalPrefixBytes: set<bv64> :=
    {0x26, 0x2e, 0x36, 0x3e, 0x64, 0x65, 0x66, 0x67, 0xf0, 0xf2}

  /** The eight bits of the immediate from bit `i` up. */
  function BitsFrom(imm: bv64, i: nat): bv64
    requires i < 64
  {
    (imm >> i) & 0xFF
  }

  /** Byte `k` (0 = least significant) of the immediate. */
  function ByteAt(imm: bv64, k: nat): bv64
    requires k < 8
  {
    BitsFrom(imm, 8 * k)
  }

  /** The eight bytes of the immediate, least significant first. */
  function BytesOf(imm: bv64): (bytes: seq<bv64>)
    ensures |bytes| == 8 && forall k :: 0 <= k < 8 ==> bytes[k] == ByteAt(imm, k)
  {
    seq(8, k requires 0 <= k < 8 => ByteAt(imm, k))
  }

  /** Some byte j >= 3 is F3 and every byte from byte 3 up to it is a
      legacy prefix. */
  ghost predicate PrefixedF3(bytes: seq<bv64>)
    requires |bytes| == 8
  {
    exists j :: 3 <= j < 8 && bytes[j] == 0xF3 &&
      forall k :: 3 <= k < j ==> bytes[k] in OptionalPrefixBytes
  }

  /** The marker: low 24 bits 0F1EFA, then legacy prefixes up to an F3. */
  ghost predicate HasEndbrMarker(imm: bv64)
  {
    imm & 0xFF_FFFF == 0x0F1EFA && PrefixedF3(BytesOf(imm))
  }

  /** isEndbrImm64: scans the bytes above the low 24 bits upward, succeeding
      at the first F3 and failing at the first byte that is not a prefix. */
  method IsEndbrImm64(imm: bv64) returns (r: bool)
    ensures r <==> HasEndbrMarker(imm)
  {
    if imm & 0xFF_FFFF != 0x0F1EFA {
      return false;
    }
    ghost var bytes := BytesOf(imm);
    assert HasEndbrMarker(imm) <==> PrefixedF3(bytes);
    var i := 24;
    ghost var k := 3;
    while i < 64
      invariant 3 <= k <= 8 && i == 8 * k
      invariant forall m :: 3 <= m < k ==> bytes[m] in OptionalPrefixBytes - {0xF3}
    {
      var b := BitsFrom(imm, i);
      assert b == bytes[k];
      if b == 0xF3 {
        assert 3 <= k < 8 && bytes[k] == 0xF3;
        return true;
      }
      if b !in OptionalPrefixBytes {
        NoMarkerPastNonPrefix(bytes, k);
        return false;
      }
      i, k := i + 8, k + 1;
    }
    NoMarkerWithoutF3(bytes);
    return false;
  }

  /** A byte that is neither a prefix nor F3, above only prefixes other
      than F3, rules the marker out. */
  lemma NoMarkerPastNonPrefix(bytes: seq<bv64>, k: nat)
    requires |bytes| == 8
    requires 3 <= k < 8 && bytes[k] !in OptionalPrefixBytes && bytes[k] != 0xF3
    requires forall m :: 3 <= m < k ==> bytes[m] in OptionalPrefixBytes - {0xF3}
    ensures !PrefixedF3(bytes)
  {
    forall j | 3 <= j < 8 && bytes[j] == 0xF3
      ensures exists m :: 3 <= m < j && bytes[m] !in OptionalPrefixBytes
    {
      assert 3 <= k < j;
    }
  }

  /** Prefix bytes other than F3 all the way to bit 64 rule the marker out. */
  lemma NoMarkerWithoutF3(bytes: seq<bv64>)
    requires |bytes| == 8
    requires forall m :: 3 <= m < 8 ==> bytes[m] in OptionalPrefixBytes - {0xF3}
    ensures !PrefixedF3(bytes)
  {
  }

  /** The plain ENDBR64 encoding F3 0F 1E FA found in the low 32 bits. */
  lemma PlainEndbr64IsMarker()
    ensures HasEndbrMarker(0xF30F1EFA)
  {
    assert BytesOf(0xF30F1EFA)[3] == 0xF3;
  }

  /** A prefix between F3 and the opcode bytes: F3 66 0F 1E FA. */
  lemma PrefixedEndbr64IsMarker()
    ensures HasEndbrMarker(0xF3_660F1EFA)
  {
    var bytes := BytesOf(0xF3_660F1EFA);
    assert bytes[3] == 0x66 && bytes[4] == 0xF3;
  }

  /** A byte that is neither a prefix nor F3 ends the scan: 0F 1E FA below
      F3 90 is not a marker. */
  lemma NonPrefixStopsScan()
    ensures !HasEndbrMarker(0xF390_0F1EFA)
  {
    assert BytesOf(0xF390_0F1EFA)[3] == 0x90;
  }
}
