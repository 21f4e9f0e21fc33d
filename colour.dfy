/**
 * RGBA colour packing: four channel floats in [0, 1] become one 32-bit word
 * `(r << 24) | (g << 16) | (b << 8) | a`, each channel scaled to 0..255.
 */
module Colour {
  import opened Text

  /** `max(0, min(255, x))`. */
  function Clamp(x: real): (y: real)
    ensures 0.0 <= y <= 255.0
    ensures 0.0 <= x <= 255.0 ==> y == x
  {
    if x > 255.0 then 255.0 else if x < 0.0 then 0.0 else x
  }

  /** `int(max(0, min(255, c * 255)))`: the channel byte of a float. */
  function Channel(c: real): (n: nat)
    ensures n <= 255
    ensures c <= 0.0 ==> n == 0
    ensures c >= 1.0 ==> n == 255
    ensures 0.0 <= c <= 1.0 ==> n as real <= c * 255.0 < n as real + 1.0
  {
    Trunc(Clamp(c * 255.0))
  }

  /** The four channel bytes shifted into place and or-ed together. */
  function PackBytes(r: nat, g: nat, b: nat, a: nat): bv32
    requires r < 256 && g < 256 && b < 256 && a < 256
  {
    (r as bv32 << 24) | (g as bv32 << 16) | (b as bv32 << 8) | (a as bv32)
  }

  /** `rgb_floats_to_rgba_int(r, g, b, a)`. */
  function Pack(r: real, g: real, b: real, a: real): (p: int)
    ensures 0 <= p < 0x1_0000_0000
  {
    PackBytes(Channel(r), Channel(g), Channel(b), Channel(a)) as int
  }

  /** The channels occupy disjoint bytes, so the or is a sum of shifted bytes. */
  lemma PackIsSum(r: nat, g: nat, b: nat, a: nat)
    requires r < 256 && g < 256 && b < 256 && a < 256
    ensures PackBytes(r, g, b, a) == (r as bv32) * 0x100_0000 + (g as bv32) * 0x1_0000 + (b as bv32) * 0x100 + a as bv32
  {
  }

  /** Each byte of the packed word decodes back to its channel. */
  lemma PackDecodes(r: nat, g: nat, b: nat, a: nat)
    requires r < 256 && g < 256 && b < 256 && a < 256
    ensures (PackBytes(r, g, b, a) >> 24) & 0xFF == r as bv32
    ensures (PackBytes(r, g, b, a) >> 16) & 0xFF == g as bv32
    ensures (PackBytes(r, g, b, a) >> 8) & 0xFF == b as bv32
    ensures PackBytes(r, g, b, a) & 0xFF == a as bv32
  {
  }

  /** Opaque red: (1, 0, 0, 1) packs to 0xFF0000FF; out-of-range channels saturate. */
  lemma PackExamples()
    ensures Pack(1.0, 0.0, 0.0, 1.0) == 0xFF00_00FF
    ensures Pack(2.0, -1.0, 0.0, 1.0) == 0xFF00_00FF
  {
    assert Channel(1.0) == 255 && Channel(0.0) == 0;
    assert Channel(2.0) == 255 && Channel(-1.0) == 0;
    assert PackBytes(255, 0, 0, 255) == 0xFF00_00FF;
  }
}
