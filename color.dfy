/** `Color`: a `Vec3` whose components are the red, green and blue intensities. */
module Colors {
  import opened Utils
  import opened Vectors
  import opened Intervals

  type Color = Vec3

  /** Eight bits of `hex` starting at bit `shift`: `(hex >> shift) & 0xFF`. */
  function HexByte(hex: bv64, shift: int): (b: int)
    requires 0 <= shift < 64
    ensures 0 <= b < 256
  {
    ((hex >> shift) & 0xFF) as int
  }

  /** `Color(uint64_t hex)`: bits 16 to 23 are red, 8 to 15 green and 0 to 7
      blue, each divided by 255. */
  function FromHex(hex: bv64): (c: Color)
  {
    Vec3(HexByte(hex, 16) as real / 255.0, HexByte(hex, 8) as real / 255.0, HexByte(hex, 0) as real / 255.0)
  }

  /** The value written `0xRRGGBB` for the bytes `r`, `g` and `b`. */
  function Pack(r: bv8, g: bv8, b: bv8): bv64
  {
    (r as bv64 << 16) | (g as bv64 << 8) | b as bv64
  }

  /** Each channel of a hex colour is one of the 256 steps from 0 to 1. */
  lemma FromHexInUnitCube(hex: bv64)
    ensures var c := FromHex(hex);
      && 0.0 <= c.x <= 1.0 && 0.0 <= c.y <= 1.0 && 0.0 <= c.z <= 1.0
      && 255.0 * c.x == HexByte(hex, 16) as real
      && 255.0 * c.y == HexByte(hex, 8) as real
      && 255.0 * c.z == HexByte(hex, 0) as real
  {
  }

  /** `0xRRGGBB` decodes to `(RR, GG, BB) / 255`. */
  lemma FromHexOfPack(r: bv8, g: bv8, b: bv8)
    ensures FromHex(Pack(r, g, b)) == Vec3(r as int as real / 255.0, g as int as real / 255.0, b as int as real / 255.0)
  {
    PackBytes(r, g, b);
  }

  lemma PackBytes(r: bv8, g: bv8, b: bv8)
    ensures HexByte(Pack(r, g, b), 16) == r as int
    ensures HexByte(Pack(r, g, b), 8) == g as int
    ensures HexByte(Pack(r, g, b), 0) == b as int
  {
    PackFields(r, g, b);
    Widen(r);
    Widen(g);
    Widen(b);
  }

  lemma Widen(r: bv8)
    ensures (r as bv64) as int == r as int
  {
  }

  lemma PackFields(r: bv8, g: bv8, b: bv8)
    ensures (Pack(r, g, b) >> 16) & 0xFF == r as bv64
    ensures (Pack(r, g, b) >> 8) & 0xFF == g as bv64
    ensures Pack(r, g, b) & 0xFF == b as bv64
  {
  }

  /** Bits above the lowest 24 do not affect the colour. */
  lemma FromHexIgnoresHighBits(hex: bv64)
    ensures FromHex(hex) == FromHex(hex & 0xFF_FFFF)
  {
    LowByteAgrees(hex, 16);
    LowByteAgrees(hex, 8);
    LowByteAgrees(hex, 0);
  }

  /** Bits 24 and up do not reach the byte at `shift`. */
  lemma LowByteAgrees(hex: bv64, shift: int)
    requires shift == 0 || shift == 8 || shift == 16
    ensures HexByte(hex, shift) == HexByte(hex & 0xFF_FFFF, shift)
  {
    var low := hex & 0xFF_FFFF;
    if shift == 16 {
      assert (hex >> 16) & 0xFF == (low >> 16) & 0xFF;
    } else if shift == 8 {
      assert (hex >> 8) & 0xFF == (low >> 8) & 0xFF;
    } else {
      assert (hex >> 0) & 0xFF == (low >> 0) & 0xFF;
    }
  }

  /** `linear_to_gamma(x)`: the square root of a positive component, and 0 otherwise. */
  function LinearToGamma(sqrt: real -> real, x: real): real
  {
    if x > 0.0 then sqrt(x) else 0.0
  }

  /** Gamma correction is the inverse of squaring on positive components, sends
      the non-positive ones to zero, and is monotone. */
  lemma LinearToGammaProperties(sqrt: real -> real, x: real, y: real)
    requires IsSqrt(sqrt)
    ensures 0.0 <= LinearToGamma(sqrt, x)
    ensures 0.0 < x ==> Square(LinearToGamma(sqrt, x)) == x
    ensures x <= 0.0 ==> LinearToGamma(sqrt, x) == 0.0
    ensures x <= y ==> LinearToGamma(sqrt, x) <= LinearToGamma(sqrt, y)
  {
    if 0.0 < x <= y {
      SqrtMonotone(sqrt, x, y);
    }
    if x <= y && 0.0 < y {
      assert 0.0 <= sqrt(y);
    }
  }

  /** Gamma correction keeps a component of 1 at 1, so it maps `[0, 1]` into `[0, 1]`. */
  lemma LinearToGammaUnit(sqrt: real -> real, x: real)
    requires IsSqrt(sqrt)
    requires x <= 1.0
    ensures LinearToGamma(sqrt, 1.0) == 1.0
    ensures LinearToGamma(sqrt, x) <= 1.0
  {
    SqrtOfSquare(sqrt, 1.0);
    LinearToGammaProperties(sqrt, x, 1.0);
  }

  /** The static interval `intensity(0.0, 0.999)` that components are clamped to. */
  const Intensity: Interval := Interval(0.0, 0.999)

  /** `int(256 * intensity.clamp(x))`: a component mapped to a byte. */
  function ToByte(x: real): (b: int)
    ensures 0 <= b <= 255
    ensures x <= 0.0 ==> b == 0
    ensures 0.999 <= x ==> b == 255
  {
    var clamped := Intensity.Clamp(x);
    TruncToInt(256.0 * clamped)
  }

  /** Within the intensity interval the byte is the 1/256-wide bucket that holds `x`;
      and a larger component never gets a smaller byte. */
  lemma ToByteBucket(x: real, y: real)
    ensures Intensity.Contains(x) ==> ToByte(x) as real <= 256.0 * x < ToByte(x) as real + 1.0
    ensures x <= y ==> ToByte(x) <= ToByte(y)
  {
    if x <= y {
      ClampMonotone(Intensity, x, y);
      TruncMonotone(256.0 * Intensity.Clamp(x), 256.0 * Intensity.Clamp(y));
    }
  }

  lemma TruncMonotone(a: real, b: real)
    requires 0.0 <= a <= b
    ensures TruncToInt(a) <= TruncToInt(b)
  {
  }

  /** `prepare_color(pixel_color)`: each component is gamma corrected and mapped
      to a byte, and the three bytes are returned as a colour. */
  function PrepareColor(sqrt: real -> real, pixel: Color): (c: Color)
  {
    var r := LinearToGamma(sqrt, pixel.x);
    var g := LinearToGamma(sqrt, pixel.y);
    var b := LinearToGamma(sqrt, pixel.z);
    Vec3(ToByte(r) as real, ToByte(g) as real, ToByte(b) as real)
  }

  /** Every prepared component is a whole number from 0 to 255; black stays 0,
      white becomes 255, each output channel depends only on the same input
      channel, and brighter input never gives a smaller byte. */
  lemma PrepareColorProperties(sqrt: real -> real, p: Color, q: Color)
    requires IsSqrt(sqrt)
    ensures var c := PrepareColor(sqrt, p);
      && 0.0 <= c.x <= 255.0 && 0.0 <= c.y <= 255.0 && 0.0 <= c.z <= 255.0
      && c.x == c.x.Floor as real && c.y == c.y.Floor as real && c.z == c.z.Floor as real
    ensures PrepareColor(sqrt, Zero) == Zero
    ensures PrepareColor(sqrt, Vec3(1.0, 1.0, 1.0)) == Vec3(255.0, 255.0, 255.0)
    ensures p.x <= 0.0 ==> PrepareColor(sqrt, p).x == 0.0
    ensures p.y <= 0.0 ==> PrepareColor(sqrt, p).y == 0.0
    ensures p.z <= 0.0 ==> PrepareColor(sqrt, p).z == 0.0
    ensures 0.999 <= LinearToGamma(sqrt, p.x) ==> PrepareColor(sqrt, p).x == 255.0
    ensures 0.999 <= LinearToGamma(sqrt, p.y) ==> PrepareColor(sqrt, p).y == 255.0
    ensures 0.999 <= LinearToGamma(sqrt, p.z) ==> PrepareColor(sqrt, p).z == 255.0
    ensures p.x == q.x ==> PrepareColor(sqrt, p).x == PrepareColor(sqrt, q).x
    ensures p.y == q.y ==> PrepareColor(sqrt, p).y == PrepareColor(sqrt, q).y
    ensures p.z == q.z ==> PrepareColor(sqrt, p).z == PrepareColor(sqrt, q).z
    ensures p.x <= q.x ==> PrepareColor(sqrt, p).x <= PrepareColor(sqrt, q).x
    ensures p.y <= q.y ==> PrepareColor(sqrt, p).y <= PrepareColor(sqrt, q).y
    ensures p.z <= q.z ==> PrepareColor(sqrt, p).z <= PrepareColor(sqrt, q).z
  {
    LinearToGammaUnit(sqrt, 1.0);
    LinearToGammaProperties(sqrt, p.x, q.x);
    LinearToGammaProperties(sqrt, p.y, q.y);
    LinearToGammaProperties(sqrt, p.z, q.z);
    ToByteBucket(LinearToGamma(sqrt, p.x), LinearToGamma(sqrt, q.x));
    ToByteBucket(LinearToGamma(sqrt, p.y), LinearToGamma(sqrt, q.y));
    ToByteBucket(LinearToGamma(sqrt, p.z), LinearToGamma(sqrt, q.z));
  }
}
