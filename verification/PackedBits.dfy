/** Bits packed eight to a byte, least significant first. */
module PackedBits {
  function Mask(k: nat): bv8
    requires k < 8
  {
    (1 as bv8) << k
  }

  lemma MaskValue(k: nat)
    requires k < 8
    ensures Mask(k) == (if k == 0 then 1 else if k == 1 then 2 else if k == 2 then 4 else if k == 3 then 8
                        else if k == 4 then 16 else if k == 5 then 32 else if k == 6 then 64 else 128)
  {
  }

  predicate BitAt(bytes: seq<bv8>, p: nat)
    requires p < 8 * |bytes|
  {
    (bytes[p / 8] & Mask(p % 8)) != 0
  }

  function SetBit(bytes: seq<bv8>, p: nat): (r: seq<bv8>)
    requires p < 8 * |bytes|
    ensures |r| == |bytes|
  {
    bytes[p / 8 := bytes[p / 8] | Mask(p % 8)]
  }

  function ClearBit(bytes: seq<bv8>, p: nat): (r: seq<bv8>)
    requires p < 8 * |bytes|
    ensures |r| == |bytes|
  {
    bytes[p / 8 := bytes[p / 8] & !Mask(p % 8)]
  }

  lemma OneBit(b: bv8, j: nat, k: nat)
    requires j < 8 && k < 8
    ensures ((b | Mask(j)) & Mask(k)) != 0 <==> j == k || (b & Mask(k)) != 0
    ensures ((b & !Mask(j)) & Mask(k)) != 0 <==> j != k && (b & Mask(k)) != 0
    ensures (0 & Mask(k)) == 0 && (0xFF & Mask(k)) != 0
  {
    MaskValue(j);
    MaskValue(k);
    hide Mask;
  }

  lemma SamePlace(p: nat, q: nat)
    ensures p == q <==> p / 8 == q / 8 && p % 8 == q % 8
  {
  }

  /** Replacing a byte by one that differs in a single bit changes that bit and no other. */
  lemma ByteExact(bytes: seq<bv8>, p: nat, b: bv8, q: nat)
    requires p < 8 * |bytes| && q < 8 * |bytes|
    ensures BitAt(bytes[p / 8 := b], q) <==> if p / 8 == q / 8 then (b & Mask(q % 8)) != 0 else BitAt(bytes, q)
  {
    hide Mask;
  }

  /** Setting or clearing a bit changes that bit and no other. */
  lemma BitsExact(bytes: seq<bv8>, p: nat, q: nat)
    requires p < 8 * |bytes| && q < 8 * |bytes|
    ensures BitAt(SetBit(bytes, p), q) <==> p == q || BitAt(bytes, q)
    ensures BitAt(ClearBit(bytes, p), q) <==> p != q && BitAt(bytes, q)
  {
    SamePlace(p, q);
    ByteExact(bytes, p, bytes[p / 8] | Mask(p % 8), q);
    ByteExact(bytes, p, bytes[p / 8] & !Mask(p % 8), q);
    OneBit(bytes[p / 8], p % 8, q % 8);
    assert p / 8 == q / 8 ==> (BitAt(bytes, q) <==> (bytes[p / 8] & Mask(q % 8)) != 0);
    hide Mask, BitAt;
  }
}
