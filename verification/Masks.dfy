/** Presence masks: one bit per field, most significant bit first, with the spare bits of
    the last byte padded by ones (row presence) or zeros (insert and update). */
module Masks {
  import opened Prelude

  /** The number whose binary digits, most significant first, are `bits`. */
  function ValueOf(bits: seq<bool>): nat {
    if bits == [] then 0
    else 2 * ValueOf(bits[..|bits| - 1]) + if bits[|bits| - 1] then 1 else 0
  }

  /** The low `width` binary digits of n, most significant first. */
  function BitsOf(n: nat, width: nat): (r: seq<bool>)
    ensures |r| == width
  {
    if width == 0 then [] else BitsOf(n / 2, width - 1) + [n % 2 == 1]
  }

  lemma {:induction false} BitsOfValue(bits: seq<bool>)
    ensures ValueOf(bits) < Pow(2, |bits|)
    ensures BitsOf(ValueOf(bits), |bits|) == bits
  {
    if bits != [] {
      BitsOfValue(bits[..|bits| - 1]);
      assert bits == bits[..|bits| - 1] + [bits[|bits| - 1]];
    }
  }

  lemma {:induction false} ValueOfBits(n: nat, width: nat)
    requires n < Pow(2, width)
    ensures ValueOf(BitsOf(n, width)) == n
  {
    if width > 0 {
      ValueOfBits(n / 2, width - 1);
      assert BitsOf(n, width)[..width - 1] == BitsOf(n / 2, width - 1);
    }
  }

  /** The low digits of a number are its remainder. */
  lemma {:induction false} LowBits(n: nat, width: nat, low: nat)
    requires low <= width
    ensures Pow(2, low) > 0
    ensures n % Pow(2, low) == ValueOf(BitsOf(n, width)[width - low..])
  {
    if low > 0 {
      LowBits(n / 2, width - 1, low - 1);
      var p := Pow(2, low - 1);
      var tail := BitsOf(n, width)[width - low..];
      assert tail[..|tail| - 1] == BitsOf(n / 2, width - 1)[width - low..];
      HalfRemainder(n, p);
    }
  }

  lemma HalfRemainder(n: nat, p: nat)
    requires p > 0
    ensures n % (2 * p) == 2 * (n / 2 % p) + n % 2
  {
    var q, r := n / 2 / p, n / 2 % p;
    assert n == (2 * p) * q + (2 * r + n % 2) by {
      assert n / 2 == p * q + r;
    }
    DivModUnique(n, 2 * p, q, 2 * r + n % 2);
  }

  /** `b & (0x80 >> k) != 0` */
  predicate Bit(b: byte, k: nat)
    requires k < 8
  {
    BitsOf(b, 8)[k]
  }

  lemma Byte8()
    ensures Pow(2, 8) == 256
  {
    assert Pow(2, 4) == 16;
  }

  function ByteFrom(bits: seq<bool>): (b: byte)
    requires |bits| == 8
    ensures BitsOf(b, 8) == bits
  {
    Byte8();
    BitsOfValue(bits);
    ValueOf(bits)
  }

  /** The two assignments of the source's bit loop: `b |= mask` and `b &= !mask`. */
  function WithBit(b: byte, k: nat, on: bool): (r: byte)
    requires k < 8
    ensures forall j | 0 <= j < 8 :: Bit(r, j) == if j == k then on else Bit(b, j)
  {
    ByteFrom(BitsOf(b, 8)[k := on])
  }

  lemma SameBitsSameByte(a: byte, b: byte)
    requires forall k | 0 <= k < 8 :: Bit(a, k) == Bit(b, k)
    ensures a == b
  {
    Byte8();
    assert BitsOf(a, 8) == BitsOf(b, 8) by {
      forall k | 0 <= k < 8 ensures BitsOf(a, 8)[k] == BitsOf(b, 8)[k] {
        assert Bit(a, k) == Bit(b, k);
      }
    }
    ValueOfBits(a, 8);
    ValueOfBits(b, 8);
  }

  function MaskLength(count: nat): (r: nat)
    ensures r >= 1 && count <= 8 * r
  {
    if count == 0 then 1 else (count + 7) / 8
  }

  predicate MaskBit(mask: seq<byte>, index: nat)
    requires index < 8 * |mask|
  {
    Bit(mask[index / 8], index % 8)
  }

  /** The mask the writer must produce: given bits first, padding in all spare bits. */
  ghost predicate IsMask(mask: seq<byte>, bits: seq<bool>, padOnes: bool) {
    && |mask| == MaskLength(|bits|)
    && forall i | 0 <= i < 8 * |mask| :: MaskBit(mask, i) == if i < |bits| then bits[i] else padOnes
  }

  lemma SameBitsSameMask(a: seq<byte>, b: seq<byte>)
    requires |a| == |b|
    requires forall i | 0 <= i < 8 * |a| :: MaskBit(a, i) == MaskBit(b, i)
    ensures a == b
  {
    forall j | 0 <= j < |a| ensures a[j] == b[j] {
      forall k | 0 <= k < 8 ensures Bit(a[j], k) == Bit(b[j], k) {
        assert MaskBit(a, 8 * j + k) == MaskBit(b, 8 * j + k);
        assert (8 * j + k) / 8 == j && (8 * j + k) % 8 == k;
      }
      SameBitsSameByte(a[j], b[j]);
    }
  }

  function Padded(bits: seq<bool>, padOnes: bool): (r: seq<bool>)
    ensures |r| == 8 * MaskLength(|bits|)
  {
    bits + seq(8 * MaskLength(|bits|) - |bits|, _ => padOnes)
  }

  function Mask(bits: seq<bool>, padOnes: bool): (r: seq<byte>)
    ensures |r| == MaskLength(|bits|)
  {
    seq(MaskLength(|bits|), j requires 0 <= j < MaskLength(|bits|) => ByteFrom(Padded(bits, padOnes)[8 * j..8 * j + 8]))
  }

  lemma MaskIsMask(bits: seq<bool>, padOnes: bool)
    ensures IsMask(Mask(bits, padOnes), bits, padOnes)
  {
    var m := Mask(bits, padOnes);
    forall i | 0 <= i < 8 * |m| ensures MaskBit(m, i) == if i < |bits| then bits[i] else padOnes {
      var p := Padded(bits, padOnes);
      var chunk := p[8 * (i / 8)..8 * (i / 8) + 8];
      assert chunk[i % 8] == p[i];
    }
  }

  lemma FilledByte(on: bool)
    ensures var b: byte := if on then 255 else 0; forall k | 0 <= k < 8 :: Bit(b, k) == on
  {
    Byte8();
    ValueOfFill(on, 8);
    BitsOfValue(Fill(on, 8));
  }

  /** `mask_bytes`: fill with the padding, then set or clear one bit per field. */
  method MaskBytes(bits: seq<bool>, padOnes: bool) returns (bytes: seq<byte>)
    ensures bytes == Mask(bits, padOnes)
  {
    var fill: byte := if padOnes then 255 else 0;
    FilledByte(padOnes);
    bytes := seq(MaskLength(|bits|), _ => fill);
    for index := 0 to |bits|
      invariant |bytes| == MaskLength(|bits|)
      invariant forall i | 0 <= i < 8 * |bytes| :: MaskBit(bytes, i) == if i < index then bits[i] else padOnes
    {
      var at := index / 8;
      ghost var was := bytes;
      bytes := bytes[at := WithBit(bytes[at], index % 8, bits[index])];
      forall i | 0 <= i < 8 * |bytes| ensures MaskBit(bytes, i) == if i == index then bits[index] else MaskBit(was, i) {
        if i / 8 == at {
          assert i == index <==> i % 8 == index % 8;
        }
      }
    }
    MaskIsMask(bits, padOnes);
    SameBitsSameMask(bytes, Mask(bits, padOnes));
  }

  /** `1 << (8 - used_bits)` */
  function SpareWeight(count: nat): nat {
    Pow(2, 8 - count % 8)
  }

  /** `validate_mask_padding` (zeros) and `validate_row_presence_mask_padding` (ones). */
  predicate PaddingOk(mask: seq<byte>, count: nat, padOnes: bool)
    requires |mask| == MaskLength(count)
  {
    LowBits(0, 8, 8 - count % 8);
    count % 8 == 0
    || mask[|mask| - 1] % SpareWeight(count) == if padOnes then SpareWeight(count) - 1 else 0
  }

  function Fill(on: bool, count: nat): (r: seq<bool>)
    ensures |r| == count
  {
    seq(count, _ => on)
  }

  lemma {:induction false} ValueOfFill(on: bool, count: nat)
    ensures ValueOf(Fill(on, count)) == if on then Pow(2, count) - 1 else 0
  {
    if count > 0 {
      ValueOfFill(on, count - 1);
      assert Fill(on, count)[..count - 1] == Fill(on, count - 1);
    }
  }

  lemma SpareBits(b: byte, spare: nat, padOnes: bool)
    requires spare <= 8
    ensures Pow(2, spare) > 0
    ensures (b % Pow(2, spare) == if padOnes then Pow(2, spare) - 1 else 0)
            <==> forall k | 8 - spare <= k < 8 :: Bit(b, k) == padOnes
  {
    var tail, fill := BitsOf(b, 8)[8 - spare..], Fill(padOnes, spare);
    LowBits(b, 8, spare);
    ValueOfFill(padOnes, spare);
    assert ValueOf(tail) == ValueOf(fill) <==> tail == fill by {
      BitsOfValue(tail);
      BitsOfValue(fill);
    }
    assert tail == fill <==> forall k | 8 - spare <= k < 8 :: Bit(b, k) == padOnes by {
      TailBits(b, spare, padOnes);
    }
  }

  lemma TailBits(b: byte, spare: nat, padOnes: bool)
    requires spare <= 8
    ensures BitsOf(b, 8)[8 - spare..] == Fill(padOnes, spare)
            <==> forall k | 8 - spare <= k < 8 :: Bit(b, k) == padOnes
  {
    var tail, fill := BitsOf(b, 8)[8 - spare..], Fill(padOnes, spare);
    forall k | 8 - spare <= k < 8 ensures Bit(b, k) == tail[k - (8 - spare)] {
    }
    if tail == fill {
      forall k | 8 - spare <= k < 8 ensures Bit(b, k) == padOnes {
        assert tail[k - (8 - spare)] == fill[k - (8 - spare)];
      }
    }
    if forall k | 8 - spare <= k < 8 :: Bit(b, k) == padOnes {
      forall i | 0 <= i < spare ensures tail[i] == padOnes {
        assert Bit(b, i + 8 - spare) == padOnes;
      }
    }
  }

  function Bits(mask: seq<byte>, count: nat): (r: seq<bool>)
    requires count <= 8 * |mask|
    ensures |r| == count
  {
    seq(count, i requires 0 <= i < count => MaskBit(mask, i))
  }

  /** Reading inverts writing, and every mask that passes the reader's padding check is one
      the writer could have produced. */
  lemma MaskRoundTrip(bits: seq<bool>, padOnes: bool)
    ensures PaddingOk(Mask(bits, padOnes), |bits|, padOnes)
    ensures Bits(Mask(bits, padOnes), |bits|) == bits
  {
    var m := Mask(bits, padOnes);
    MaskIsMask(bits, padOnes);
    if |bits| > 0 {
      PaddingMeansSpareBits(m, |bits|, padOnes);
    }
  }

  lemma PaddingMeansSpareBits(mask: seq<byte>, count: nat, padOnes: bool)
    requires |mask| == MaskLength(count) && count > 0
    ensures PaddingOk(mask, count, padOnes) <==> forall i | count <= i < 8 * |mask| :: MaskBit(mask, i) == padOnes
  {
    var used, last := count % 8, |mask| - 1;
    if used != 0 {
      assert count / 8 == last;
      SpareBits(mask[last], 8 - used, padOnes);
      forall i | count <= i < 8 * |mask| ensures MaskBit(mask, i) == Bit(mask[last], i - 8 * last) {
        assert i / 8 == last && i % 8 == i - 8 * last;
      }
      forall k | used <= k < 8 ensures Bit(mask[last], k) == MaskBit(mask, 8 * last + k) {
      }
    }
  }

  lemma AcceptedMaskIsWritten(mask: seq<byte>, count: nat, padOnes: bool)
    requires count > 0 && |mask| == MaskLength(count)
    ensures PaddingOk(mask, count, padOnes) <==> mask == Mask(Bits(mask, count), padOnes)
  {
    var written := Mask(Bits(mask, count), padOnes);
    MaskIsMask(Bits(mask, count), padOnes);
    PaddingMeansSpareBits(mask, count, padOnes);
    if PaddingOk(mask, count, padOnes) {
      SameBitsSameMask(mask, written);
    }
  }
}
