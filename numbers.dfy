/** Byte-order conversion and the reentrant pseudo-random generator of
    utils/src/numbers.c. */
module Numbers {
  import opened Common

  /** The build-time byte order selected by `AVS_COMMONS_BIG_ENDIAN`. */
  datatype ByteOrder = LittleEndian | BigEndian

  function Reversed<T>(s: seq<T>): (r: seq<T>)
    ensures |r| == |s|
    ensures forall i :: 0 <= i < |s| ==> r[i] == s[|s| - 1 - i]
  {
    if s == [] then [] else Reversed(s[1..]) + [s[0]]
  }

  // The bytes of a value in memory order of a little-endian machine
  // (least significant first), and the value such a byte sequence denotes.

  function Bytes16(v: bv16): (s: seq<bv8>)
    ensures |s| == 2
  {
    [(v & 0xFF) as bv8, (v >> 8) as bv8]
  }

  function Pack16(s: seq<bv8>): bv16
    requires |s| == 2
  {
    (s[0] as bv16) | ((s[1] as bv16) << 8)
  }

  function Bytes32(v: bv32): (s: seq<bv8>)
    ensures |s| == 4
  {
    [(v & 0xFF) as bv8, ((v >> 8) & 0xFF) as bv8, ((v >> 16) & 0xFF) as bv8, (v >> 24) as bv8]
  }

  function Pack32(s: seq<bv8>): bv32
    requires |s| == 4
  {
    (s[0] as bv32) | ((s[1] as bv32) << 8) | ((s[2] as bv32) << 16) | ((s[3] as bv32) << 24)
  }

  function Bytes64(v: bv64): (s: seq<bv8>)
    ensures |s| == 8
  {
    [(v & 0xFF) as bv8, ((v >> 8) & 0xFF) as bv8, ((v >> 16) & 0xFF) as bv8, ((v >> 24) & 0xFF) as bv8,
     ((v >> 32) & 0xFF) as bv8, ((v >> 40) & 0xFF) as bv8, ((v >> 48) & 0xFF) as bv8, (v >> 56) as bv8]
  }

  function Pack64(s: seq<bv8>): bv64
    requires |s| == 8
  {
    (s[0] as bv64) | ((s[1] as bv64) << 8) | ((s[2] as bv64) << 16) | ((s[3] as bv64) << 24)
    | ((s[4] as bv64) << 32) | ((s[5] as bv64) << 40) | ((s[6] as bv64) << 48) | ((s[7] as bv64) << 56)
  }

  /** `avs_convert_be16`: the identity on big-endian builds, a swap of the
      two bytes otherwise. */
  function ConvertBe16(order: ByteOrder, v: bv16): (r: bv16)
    ensures order == BigEndian ==> r == v
    ensures order == LittleEndian ==> r == Pack16(Reversed(Bytes16(v)))
  {
    if order == BigEndian then v else (v >> 8) | (v << 8)
  }

  /** `avs_convert_be32`: reverses the four bytes on little-endian builds. */
  function ConvertBe32(order: ByteOrder, v: bv32): (r: bv32)
    ensures order == BigEndian ==> r == v
    ensures order == LittleEndian ==> r == Pack32(Reversed(Bytes32(v)))
  {
    if order == BigEndian then v else
      (v >> 24) | ((v & 0xFF0000) >> 8) | ((v & 0xFF00) << 8) | (v << 24)
  }

  /** `avs_convert_be64`: reverses the eight bytes on little-endian builds. */
  function ConvertBe64(order: ByteOrder, v: bv64): (r: bv64)
    ensures order == BigEndian ==> r == v
    ensures order == LittleEndian ==> r == Pack64(Reversed(Bytes64(v)))
  {
    if order == BigEndian then v else
      Reversed8(Bytes64(v));
      Swap64(v);
      (v >> 56)
      | ((v & 0xFF000000000000) >> 40)
      | ((v & 0xFF0000000000) >> 24)
      | ((v & 0xFF00000000) >> 8)
      | ((v & 0xFF000000) << 8)
      | ((v & 0xFF0000) << 24)
      | ((v & 0xFF00) << 40)
      | (v << 56)
  }

  lemma Reversed8<T>(s: seq<T>)
    requires |s| == 8
    ensures Reversed(s) == [s[7], s[6], s[5], s[4], s[3], s[2], s[1], s[0]]
  {
  }

  /** The shifts and masks of `avs_convert_be64` place byte `i` of the value
      at byte `7 - i`. */
  lemma Swap64(v: bv64)
    ensures (v >> 56)
      | ((v & 0xFF000000000000) >> 40)
      | ((v & 0xFF0000000000) >> 24)
      | ((v & 0xFF00000000) >> 8)
      | ((v & 0xFF000000) << 8)
      | ((v & 0xFF0000) << 24)
      | ((v & 0xFF00) << 40)
      | (v << 56)
      == Pack64([(v >> 56) as bv8, ((v >> 48) & 0xFF) as bv8, ((v >> 40) & 0xFF) as bv8, ((v >> 32) & 0xFF) as bv8,
                 ((v >> 24) & 0xFF) as bv8, ((v >> 16) & 0xFF) as bv8, ((v >> 8) & 0xFF) as bv8, (v & 0xFF) as bv8])
  {
  }

  /** Unpacking a packed sequence gives the sequence back (stated on the
      individual bytes first, where the bit-vector reasoning is cheap). */
  lemma UnpackBytes16(b0: bv8, b1: bv8)
    ensures var v := (b0 as bv16) | ((b1 as bv16) << 8);
      (v & 0xFF) as bv8 == b0 && (v >> 8) as bv8 == b1
  {
  }

  lemma Bytes16Pack16(s: seq<bv8>)
    requires |s| == 2
    ensures Bytes16(Pack16(s)) == s
  {
    UnpackBytes16(s[0], s[1]);
  }

  lemma UnpackBytes32(b0: bv8, b1: bv8, b2: bv8, b3: bv8)
    ensures var v := (b0 as bv32) | ((b1 as bv32) << 8) | ((b2 as bv32) << 16) | ((b3 as bv32) << 24);
      && (v & 0xFF) as bv8 == b0 && ((v >> 8) & 0xFF) as bv8 == b1
      && ((v >> 16) & 0xFF) as bv8 == b2 && (v >> 24) as bv8 == b3
  {
  }

  lemma Bytes32Pack32(s: seq<bv8>)
    requires |s| == 4
    ensures Bytes32(Pack32(s)) == s
  {
    UnpackBytes32(s[0], s[1], s[2], s[3]);
  }

  lemma UnpackBytes64(b0: bv8, b1: bv8, b2: bv8, b3: bv8, b4: bv8, b5: bv8, b6: bv8, b7: bv8)
    ensures var v := (b0 as bv64) | ((b1 as bv64) << 8) | ((b2 as bv64) << 16) | ((b3 as bv64) << 24)
                     | ((b4 as bv64) << 32) | ((b5 as bv64) << 40) | ((b6 as bv64) << 48) | ((b7 as bv64) << 56);
      && (v & 0xFF) as bv8 == b0 && ((v >> 8) & 0xFF) as bv8 == b1
      && ((v >> 16) & 0xFF) as bv8 == b2 && ((v >> 24) & 0xFF) as bv8 == b3
      && ((v >> 32) & 0xFF) as bv8 == b4 && ((v >> 40) & 0xFF) as bv8 == b5
      && ((v >> 48) & 0xFF) as bv8 == b6 && (v >> 56) as bv8 == b7
  {
  }

  lemma Bytes64Pack64(s: seq<bv8>)
    requires |s| == 8
    ensures Bytes64(Pack64(s)) == s
  {
    UnpackBytes64(s[0], s[1], s[2], s[3], s[4], s[5], s[6], s[7]);
  }

  lemma ReversedTwice<T>(s: seq<T>)
    ensures Reversed(Reversed(s)) == s
  {
  }

  /** Each converter is an involution: converting twice gives the value back. */
  lemma ConvertBe16Involution(order: ByteOrder, v: bv16)
    ensures ConvertBe16(order, ConvertBe16(order, v)) == v
  {
    if order == LittleEndian {
      Bytes16Pack16(Reversed(Bytes16(v)));
      ReversedTwice(Bytes16(v));
      assert Pack16(Bytes16(v)) == v;
    }
  }

  lemma ConvertBe32Involution(order: ByteOrder, v: bv32)
    ensures ConvertBe32(order, ConvertBe32(order, v)) == v
  {
    if order == LittleEndian {
      Bytes32Pack32(Reversed(Bytes32(v)));
      ReversedTwice(Bytes32(v));
      assert Pack32(Bytes32(v)) == v;
    }
  }

  lemma ConvertBe64Involution(order: ByteOrder, v: bv64)
    ensures ConvertBe64(order, ConvertBe64(order, v)) == v
  {
    if order == LittleEndian {
      Bytes64Pack64(Reversed(Bytes64(v)));
      ReversedTwice(Bytes64(v));
      assert Pack64(Bytes64(v)) == v;
    }
  }

  /** The value a host of the given byte order reads from the memory bytes
      `w` (lowest address first). */
  function HostLoad16(order: ByteOrder, w: seq<bv8>): bv16
    requires |w| == 2
  {
    if order == LittleEndian then Pack16(w) else Pack16(Reversed(w))
  }

  function HostLoad32(order: ByteOrder, w: seq<bv8>): bv32
    requires |w| == 4
  {
    if order == LittleEndian then Pack32(w) else Pack32(Reversed(w))
  }

  function HostLoad64(order: ByteOrder, w: seq<bv8>): bv64
    requires |w| == 8
  {
    if order == LittleEndian then Pack64(w) else Pack64(Reversed(w))
  }

  /** What the converters are for: on either byte order, converting a host
      load of wire bytes yields the big-endian (network order) value of those
      bytes, that is, the value a big-endian host would have loaded. */
  lemma ConvertBe16ReadsNetworkOrder(order: ByteOrder, w: seq<bv8>)
    requires |w| == 2
    ensures ConvertBe16(order, HostLoad16(order, w)) == HostLoad16(BigEndian, w)
  {
    if order == LittleEndian {
      Bytes16Pack16(w);
    }
  }

  lemma ConvertBe32ReadsNetworkOrder(order: ByteOrder, w: seq<bv8>)
    requires |w| == 4
    ensures ConvertBe32(order, HostLoad32(order, w)) == HostLoad32(BigEndian, w)
  {
    if order == LittleEndian {
      Bytes32Pack32(w);
    }
  }

  lemma ConvertBe64ReadsNetworkOrder(order: ByteOrder, w: seq<bv8>)
    requires |w| == 8
    ensures ConvertBe64(order, HostLoad64(order, w)) == HostLoad64(BigEndian, w)
  {
    if order == LittleEndian {
      Bytes64Pack64(w);
    }
  }

  lemma Big16Value(hi: bv8, lo: bv8)
    ensures ((lo as bv16) | ((hi as bv16) << 8)) as int == hi as int * 256 + lo as int
  {
  }

  /** The big-endian value of two bytes, as an integer. */
  lemma NetworkOrder16Value(w: seq<bv8>)
    requires |w| == 2
    ensures HostLoad16(BigEndian, w) as int == w[0] as int * 256 + w[1] as int
  {
    assert Reversed(w) == [w[1], w[0]];
    assert HostLoad16(BigEndian, w) == (w[1] as bv16) | ((w[0] as bv16) << 8);
    Big16Value(w[0], w[1]);
  }

  // avs_rand_r: a linear congruential generator over `unsigned int`.

  const RAND_MULTIPLIER: nat := 1103515245
  const RAND_INCREMENT: nat := 12345

  /** The new value of `*seed`: the product and sum wrap around modulo 2^32. */
  function NextSeed(seed: u32): u32
  {
    (seed * RAND_MULTIPLIER + RAND_INCREMENT) % 0x1_0000_0000
  }

  /** The `unsigned int` variable that `avs_rand_r` updates through its argument. */
  class RandSeed {
    var value: u32

    constructor (initial: u32)
      ensures value == initial
    {
      value := initial;
    }
  }

  /** `avs_rand_r`: advances the seed in place and returns the new seed reduced
      modulo `AVS_RAND_MAX + 1`, which is taken as the parameter `randMax`. */
  method RandR(seed: RandSeed, randMax: nat) returns (r: nat)
    requires randMax < 0xFFFF_FFFF
    modifies seed
    ensures seed.value == NextSeed(old(seed.value))
    ensures r == seed.value % (randMax + 1)
    ensures r <= randMax
  {
    seed.value := (seed.value * RAND_MULTIPLIER + RAND_INCREMENT) % 0x1_0000_0000;
    r := seed.value % (randMax + 1);
  }

  /** The result that `avs_rand_r` returns for a given seed. */
  function RandResult(seed: u32, randMax: nat): (r: nat)
    requires randMax < 0xFFFF_FFFF
    ensures r <= randMax
  {
    NextSeed(seed) % (randMax + 1)
  }

  /** Equal seeds give equal results and equal successor seeds, and a call
      yields exactly what the specification predicts. */
  method RandRIsDeterministic(a: RandSeed, b: RandSeed, randMax: nat) returns (ra: nat, rb: nat)
    requires a != b && a.value == b.value && randMax < 0xFFFF_FFFF
    modifies a, b
    ensures ra == rb && a.value == b.value
    ensures ra == RandResult(old(a.value), randMax)
  {
    ra := RandR(a, randMax);
    rb := RandR(b, randMax);
  }
}
