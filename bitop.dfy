/** Sign-bit packing of a float vector into 64-bit words (bitop.cc).

    Only the predicate `x[j] > 0` of each float is ever used, so an input
    vector is modelled by the sequence of those truth values. A `uint64_t`
    (and a `std::bitset<64>`) is modelled by its 64 bits, `Bits64`, least
    significant first: element `t` is bit `t`, the bit of weight 2^t. */
module BitOp {

  type Bits64 = w: seq<bool> | |w| == 64 witness seq(64, t => false)

  /** The word 0. */
  const Zero: Bits64 := seq(64, t => false)

  /** `C` in bitop.cc, `1lu << 63lu`: only bit 63 set. */
  const C: Bits64 := seq(64, t => t == 63)

  /** Bitwise `a | b`. */
  function Or(a: Bits64, b: Bits64): Bits64
  {
    seq(64, t requires 0 <= t < 64 => a[t] || b[t])
  }

  /** Logical `w >> 1` of an unsigned word: bit `t + 1` moves to bit `t` and
      bit 63 becomes 0. */
  function ShiftRight1(w: Bits64): Bits64
  {
    seq(64, t requires 0 <= t < 64 => t < 63 && w[t + 1])
  }

  /** Reference packing, block by block: the first 64 inputs form the first
      word and the rest is packed the same way; a tail shorter than 64
      inputs is dropped. */
  function Pack(x: seq<bool>): (ws: seq<Bits64>)
    ensures |ws| == |x| / 64
    decreases |x|
  {
    if |x| < 64 then [] else [x[..64]] + Pack(x[64..])
  }

  /** The bit-position formula both packers promise: bit `t` of word `k` is
      set exactly when input `64 * k + t` is positive. */
  lemma {:induction false} PackBit(x: seq<bool>, k: nat, t: nat)
    requires k < |x| / 64 && t < 64
    ensures Pack(x)[k][t] == x[64 * k + t]
    decreases k
  {
    if k > 0 {
      PackBit(x[64..], k - 1, t);
    }
  }

  /** Word `k` of the packing is exactly block `k` of the input: it depends
      on `x[64k .. 64k + 63]` and on nothing else. */
  lemma PackBlock(x: seq<bool>, k: nat)
    requires k < |x| / 64
    ensures Pack(x)[k] == x[64 * k .. 64 * k + 64]
  {
    forall t | 0 <= t < 64
      ensures Pack(x)[k][t] == x[64 * k .. 64 * k + 64][t]
    {
      PackBit(x, k, t);
    }
  }

  /** The state of `bits` in `gen64` after `i` inputs of block `k`, each
      ORed in at bit 63 and followed by a shift: input `t` of the block is
      at bit `t + 63 - i`, and the bits from 63 - i up are clear. */
  ghost function Shifted(x: seq<bool>, k: nat, i: nat): Bits64
    requires i < 64 && 64 * k + 64 <= |x|
  {
    seq(64, t requires 0 <= t < 64 => 63 - i <= t < 63 && x[64 * k + t + i - 63])
  }

  /** `gen64_bitset` (bitop.cc:53-69): bit `i` of a bitset is assigned from
      input `gid`, and the whole word is stored once per block. */
  method Gen64Bitset(x: seq<bool>) returns (res: seq<Bits64>)
    ensures res == Pack(x)
  {
    var bits: Bits64 := Zero;
    var out := new Bits64[|x| / 64](_ => Zero);
    var gid := 0;
    var k := 0;
    while k < out.Length
      invariant 0 <= k <= out.Length
      invariant gid == 64 * k
      invariant forall q :: 0 <= q < k ==> out[q] == Pack(x)[q]
    {
      var i := 0;
      while i < 64
        invariant 0 <= i <= 64
        invariant gid == 64 * k + i
        invariant forall t :: 0 <= t < i ==> bits[t] == x[64 * k + t]
      {
        if x[gid] {
          bits := bits[i := true];
        } else {
          bits := bits[i := false];
        }
        gid := gid + 1;
        i := i + 1;
      }
      PackBlock(x, k);
      assert bits == x[64 * k .. 64 * k + 64];
      out[k] := bits;
      k := k + 1;
    }
    res := out[..];
  }

  /** `gen64` (bitop.cc:71-89): each input is ORed in at bit 63 and the word
      is shifted right after every input but the last, so input `i` of a
      block is shifted `63 - i` times and ends at bit `i`. */
  method Gen64(x: seq<bool>) returns (res: seq<Bits64>)
    ensures res == Pack(x)
  {
    var bits: Bits64;
    var out := new Bits64[|x| / 64](_ => Zero);
    var gid := 0;
    var k := 0;
    while k < out.Length
      invariant 0 <= k <= out.Length
      invariant gid == 64 * k
      invariant forall q :: 0 <= q < k ==> out[q] == Pack(x)[q]
    {
      bits := Zero;
      var i := 0;
      while i < 64
        invariant 0 <= i <= 64
        invariant gid == 64 * k + i
        invariant i < 64 ==> bits == Shifted(x, k, i)
        invariant i == 64 ==> bits == x[64 * k .. 64 * k + 64]
      {
        if x[gid] {
          bits := Or(bits, C);
        }
        if i < 63 {
          bits := ShiftRight1(bits);
        }
        gid := gid + 1;
        i := i + 1;
      }
      PackBlock(x, k);
      out[k] := bits;
      k := k + 1;
    }
    res := out[..];
  }

  /** What `main` (bitop.cc:98-115) writes to its two output files for
      comparison: the two packers agree on every input. */
  method PackersAgree(x: seq<bool>) returns (same: bool)
    ensures same
  {
    var y1 := Gen64Bitset(x);
    var y2 := Gen64(x);
    same := y1 == y2;
  }
}
