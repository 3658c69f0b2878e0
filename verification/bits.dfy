/** Bytes and the most-significant-bit-first addressing that frames, frame
    lines and glyph rows all share: bit `i` of a packed line lives in byte
    `i / 8`, at bit position `7 - i % 8`. */
module Bits {

  /** `1 << k` for a bit position of an unsigned char. Spelled out as a table
      so that the solver reasons about constants, not variable shifts. */
  function Mask(k: nat): (m: bv8)
    requires k < 8
    ensures m == 1 << k
  {
    match k
    case 0 => 0x01
    case 1 => 0x02
    case 2 => 0x04
    case 3 => 0x08
    case 4 => 0x10
    case 5 => 0x20
    case 6 => 0x40
    case _ => 0x80
  }

  /** Bit `k` (0 = least significant) of byte `b`. */
  predicate Bit(b: bv8, k: nat)
    requires k < 8
  {
    b & Mask(k) != 0
  }

  /** `(b >> k) & 1`, the way the compositor reads a bit, is the same bit. */
  lemma ShiftedBit(b: bv8, k: nat)
    requires k < 8
    ensures ((b >> k) & 1 == 1) == Bit(b, k)
    ensures ((b >> k) & 1 == 0) == !Bit(b, k)
  {
  }

  /** `b | (1 << k)` when `v`, `b & ~(1 << k)` otherwise. */
  function SetBit(b: bv8, k: nat, v: bool): (r: bv8)
    requires k < 8
    ensures forall j :: 0 <= j < 8 ==> Bit(r, j) == if j == k then v else Bit(b, j)
  {
    var r := if v then b | Mask(k) else b & !Mask(k);
    forall j | 0 <= j < 8
      ensures Bit(r, j) == if j == k then v else Bit(b, j)
    {
      MaskBits(j, k);
    }
    r
  }

  /** Setting a bit and then setting it back to its old value gives the
      byte it started from. */
  lemma SetBitBack(b: bv8, k: nat, v: bool)
    requires k < 8
    ensures SetBit(SetBit(b, k, v), k, Bit(b, k)) == b
  {
    BitsDetermineByte(SetBit(SetBit(b, k, v), k, Bit(b, k)), b);
  }

  /** Bit `j` of `1 << k` is set exactly when `j == k`. */
  lemma MaskBits(j: nat, k: nat)
    requires j < 8 && k < 8
    ensures Mask(k) & Mask(j) != 0 <==> j == k
  {
  }

  /** Bitwise or, bit by bit. */
  lemma BitOr(a: bv8, b: bv8)
    ensures forall k :: 0 <= k < 8 ==> Bit(a | b, k) == (Bit(a, k) || Bit(b, k))
  {
  }

  /** Two bytes with the same eight bits are the same byte. */
  lemma BitsDetermineByte(a: bv8, b: bv8)
    requires forall k :: 0 <= k < 8 ==> Bit(a, k) == Bit(b, k)
    ensures a == b
  {
    assert Bit(a, 0) == Bit(b, 0);
    assert Bit(a, 1) == Bit(b, 1);
    assert Bit(a, 2) == Bit(b, 2);
    assert Bit(a, 3) == Bit(b, 3);
    assert Bit(a, 4) == Bit(b, 4);
    assert Bit(a, 5) == Bit(b, 5);
    assert Bit(a, 6) == Bit(b, 6);
    assert Bit(a, 7) == Bit(b, 7);
  }

  /** Bit `i` of a packed line, most significant bit of each byte first. */
  predicate BitAt(bytes: seq<bv8>, i: nat)
    requires i / 8 < |bytes|
  {
    Bit(bytes[i / 8], 7 - i % 8)
  }

  /** A zero-filled line of `n` bytes. */
  function Zeros(n: nat): (r: seq<bv8>)
    ensures |r| == n
    ensures forall i :: 0 <= i < 8 * n ==> !BitAt(r, i)
  {
    seq(n, _ => 0)
  }

  /** Sets or clears bit `i` of a packed line and nothing else. */
  function SetBitAt(bytes: seq<bv8>, i: nat, v: bool): (r: seq<bv8>)
    requires i / 8 < |bytes|
    ensures |r| == |bytes|
    ensures forall j :: 0 <= j < 8 * |r| ==> BitAt(r, j) == if j == i then v else BitAt(bytes, j)
  {
    var r := bytes[i / 8 := SetBit(bytes[i / 8], 7 - i % 8, v)];
    assert forall j :: 0 <= j < 8 * |r| && j != i && j / 8 == i / 8 ==> j % 8 != i % 8;
    r
  }

  /** The bytes of `bs` or-ed together. */
  function OrAll(bs: seq<bv8>): bv8
  {
    if |bs| == 0 then 0 else OrAll(bs[..|bs| - 1]) | bs[|bs| - 1]
  }

  /** A bit of an or of bytes is set exactly when it is set in one of them. */
  lemma {:induction false} OrAllBits(bs: seq<bv8>, k: nat)
    requires k < 8
    ensures Bit(OrAll(bs), k) <==> exists j :: 0 <= j < |bs| && Bit(bs[j], k)
  {
    if |bs| > 0 {
      var init := bs[..|bs| - 1];
      OrAllBits(init, k);
      BitOr(OrAll(init), bs[|bs| - 1]);
      if Bit(OrAll(init), k) {
        var j :| 0 <= j < |init| && Bit(init[j], k);
        assert bs[j] == init[j];
      }
      if exists j :: 0 <= j < |bs| && Bit(bs[j], k) {
        var j :| 0 <= j < |bs| && Bit(bs[j], k);
        if j < |init| {
          assert init[j] == bs[j];
        }
      }
    }
  }
}
