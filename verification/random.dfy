/**
  Randomness as data: `crypto.randomFillSync` is modelled as reading the next bytes
  of a finite byte stream given by the caller. A draw either yields a value and the
  unread rest of the stream, or finds the stream too short (`Exhausted`, standing for
  the draws the given prefix does not cover), or throws.
*/
module Random {
  import opened Arith

  newtype byte = x: int | 0 <= x < 256

  datatype Drawn<+T> =
    | Drawn(value: T, rest: seq<byte>)
    | Exhausted
    | Failed(message: string)

  /** `n = (n << 8n) | byte` over the bytes in order: the big-endian value. */
  function BigEndian(bs: seq<byte>): (n: nat)
    ensures n < Pow2(8 * |bs|)
  {
    if |bs| == 0 then 0
    else
      var init := bs[..|bs| - 1];
      var n := BigEndian(init) * 256 + bs[|bs| - 1] as nat;
      assert Pow2(8 * |bs|) == Pow2(8 * |init|) * 256 by {
        Pow2Add(8 * |init|, 8);
      }
      n
  }

  /** One `BigUint64Array` element filled from eight bytes: the little-endian value. */
  function LittleEndian(bs: seq<byte>): (n: nat)
    ensures n < Pow2(8 * |bs|)
  {
    if |bs| == 0 then 0
    else
      var n := bs[0] as nat + 256 * LittleEndian(bs[1..]);
      assert Pow2(8 * |bs|) == 256 * Pow2(8 * (|bs| - 1)) by {
        Pow2Add(8, 8 * (|bs| - 1));
      }
      n
  }

  /** Every value below 2^(8k) is the little-endian reading of some k bytes. */
  lemma {:induction false} LittleEndianOnto(k: nat, n: nat)
    requires n < Pow2(8 * k)
    ensures exists bs: seq<byte> :: |bs| == k && LittleEndian(bs) == n
    decreases k
  {
    if k == 0 {
      assert LittleEndian([]) == n;
    } else {
      Pow2Add(8, 8 * (k - 1));
      var low := (n % 256) as byte;
      assert n / 256 < Pow2(8 * (k - 1));
      LittleEndianOnto(k - 1, n / 256);
      var tail: seq<byte> :| |tail| == k - 1 && LittleEndian(tail) == n / 256;
      var bs := [low] + tail;
      assert bs[1..] == tail;
      assert LittleEndian(bs) == n;
    }
  }

  /** `randomFillSync` on a `BigUint64Array(1)`: the next eight bytes as an unsigned 64-bit value. */
  function Uint64(stream: seq<byte>): (r: Drawn<nat>)
    ensures r.Drawn? <==> |stream| >= 8
    ensures r.Drawn? ==> r.value < Pow2(64) && r.rest == stream[8..]
  {
    if |stream| < 8 then Exhausted else Drawn(LittleEndian(stream[..8]), stream[8..])
  }
}
