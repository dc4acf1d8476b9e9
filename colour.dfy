/** The packed 32-bit colour of the library and its channel macros.

    A colour holds red, green, blue and alpha, one byte each, from the most
    significant byte to the least.  The macros shift and mask an unsigned
    32-bit value; on a value in [0, 2^32) `(c >> n) & 0xFF` is
    `c / 2^n % 256`, and or-ing shifted bytes that do not overlap is adding
    them, which is how they are written here. */
module Colour {

  /** The C type `u32`. */
  type u32 = x: int | 0 <= x < 0x1_0000_0000

  datatype Channel = Red | Green | Blue | Alpha

  /** GRRLIB_R: the red byte. */
  function R(c: u32): (r: u32)
    ensures r <= 0xFF
  {
    c / 0x100_0000 % 0x100
  }

  /** GRRLIB_G: the green byte. */
  function G(c: u32): (g: u32)
    ensures g <= 0xFF
  {
    c / 0x1_0000 % 0x100
  }

  /** GRRLIB_B: the blue byte. */
  function B(c: u32): (b: u32)
    ensures b <= 0xFF
  {
    c / 0x100 % 0x100
  }

  /** GRRLIB_A: the alpha byte. */
  function A(c: u32): (a: u32)
    ensures a <= 0xFF
  {
    c % 0x100
  }

  /** One channel of a colour, selected by name. */
  function ChannelOf(c: u32, ch: Channel): (v: u32)
    ensures v <= 0xFF
  {
    match ch
    case Red => R(c)
    case Green => G(c)
    case Blue => B(c)
    case Alpha => A(c)
  }

  /** GRRLIB_RGBA: every argument is cast to u32; green, blue and alpha are
      masked to a byte, and red loses its high bits in the 32-bit shift by 24.
      Reduced modulo 256 (Euclidean, so also for negative arguments, as the
      cast to an unsigned type does), each component lands in its own byte
      and nothing spills into a neighbour. */
  function RGBA(r: int, g: int, b: int, a: int): (c: u32)
    ensures R(c) == r % 0x100 && G(c) == g % 0x100
    ensures B(c) == b % 0x100 && A(c) == a % 0x100
  {
    ByteFields(r % 0x100, g % 0x100, b % 0x100, a % 0x100);
    (r % 0x100) * 0x100_0000 + (g % 0x100) * 0x1_0000 + (b % 0x100) * 0x100 + a % 0x100
  }

  /** Four bytes placed at shifts 24, 16, 8 and 0 are read back by the
      extractors' shift-and-mask. */
  lemma ByteFields(r: int, g: int, b: int, a: int)
    requires 0 <= r < 0x100 && 0 <= g < 0x100 && 0 <= b < 0x100 && 0 <= a < 0x100
    ensures var c := r * 0x100_0000 + g * 0x1_0000 + b * 0x100 + a;
      && 0 <= c < 0x1_0000_0000
      && c / 0x100_0000 % 0x100 == r && c / 0x1_0000 % 0x100 == g
      && c / 0x100 % 0x100 == b && c % 0x100 == a
  {
    var c := r * 0x100_0000 + g * 0x1_0000 + b * 0x100 + a;
    DivModUnique(r, 0x100_0000, g * 0x1_0000 + b * 0x100 + a);
    DivModUnique(0, 0x100, r);
    DivModUnique(r * 0x100 + g, 0x1_0000, b * 0x100 + a);
    DivModUnique(r, 0x100, g);
    DivModUnique(r * 0x1_0000 + g * 0x100 + b, 0x100, a);
    DivModUnique(r * 0x100 + g, 0x100, b);
  }

  lemma MulSign(k: int, f: int)
    requires f > 0
    ensures k >= 1 ==> k * f >= f
    ensures k <= -1 ==> k * f <= -f
  {
  }

  /** Quotient and remainder are unique: whatever writes n as q * f + r with
      0 <= r < f gives Dafny's n / f and n % f. */
  lemma DivModUnique(q: int, f: int, r: int)
    requires f > 0 && 0 <= r < f
    ensures (q * f + r) / f == q && (q * f + r) % f == r
  {
    var n := q * f + r;
    var q', r' := n / f, n % f;
    assert (q - q') * f == r' - r;
    MulSign(q - q', f);
  }

  /** A byte is its own remainder modulo 256. */
  lemma ByteMod(x: int)
    requires 0 <= x < 0x100
    ensures x % 0x100 == x
  {
    DivModUnique(0, 0x100, x);
  }

  /** A colour is the weighted sum of its four bytes. */
  lemma Decompose(c: u32)
    ensures c == R(c) * 0x100_0000 + G(c) * 0x1_0000 + B(c) * 0x100 + A(c)
  {
    var c1 := c / 0x100;
    var c2 := c1 / 0x100;
    var c3 := c2 / 0x100;
    assert c2 == c3 * 0x100 + c2 % 0x100;
    assert c == c2 * 0x1_0000 + (c1 % 0x100) * 0x100 + c % 0x100;
    DivModUnique(c2, 0x1_0000, (c1 % 0x100) * 0x100 + c % 0x100);
    assert c == c3 * 0x100_0000 + ((c2 % 0x100) * 0x1_0000 + (c1 % 0x100) * 0x100 + c % 0x100);
    DivModUnique(c3, 0x100_0000, (c2 % 0x100) * 0x1_0000 + (c1 % 0x100) * 0x100 + c % 0x100);
  }

  /** Extracting the four channels and packing them again gives the colour back. */
  lemma RoundTrip(c: u32)
    ensures RGBA(R(c), G(c), B(c), A(c)) == c
  {
    Decompose(c);
    PackBytes(R(c), G(c), B(c), A(c));
  }

  /** On arguments that are already bytes, RGBA is the plain weighted sum. */
  lemma PackBytes(r: int, g: int, b: int, a: int)
    requires 0 <= r < 0x100 && 0 <= g < 0x100 && 0 <= b < 0x100 && 0 <= a < 0x100
    ensures RGBA(r, g, b, a) == r * 0x100_0000 + g * 0x1_0000 + b * 0x100 + a
  {
    ByteMod(r); ByteMod(g); ByteMod(b); ByteMod(a);
  }

  /** Two colours that agree on every channel are the same colour. */
  lemma ChannelsDetermine(c: u32, d: u32)
    requires R(c) == R(d) && G(c) == G(d) && B(c) == B(d) && A(c) == A(d)
    ensures c == d
  {
    Decompose(c);
    Decompose(d);
  }
}
