/**
  Colors are stored as tuples with w = 0, so they reuse the tuple arithmetic;
  red, green and blue are the x, y and z components.
 */
module Colors {
  import opened Base
  import Tuples

  datatype Color = Color(tuple: Tuples.Tuple)

  function NewColor(red: real, green: real, blue: real): (c: Color)
    ensures Tuples.IsVector(c.tuple)
    ensures Red(c) == red && Green(c) == green && Blue(c) == blue
  {
    Color(Tuples.Tuple(red, green, blue, 0.0))
  }

  function Red(c: Color): real { c.tuple.x }
  function Green(c: Color): real { c.tuple.y }
  function Blue(c: Color): real { c.tuple.z }

  /** Black, the `Default` color. */
  const Black: Color := NewColor(0.0, 0.0, 0.0)

  lemma BlackIsDefault()
    ensures Red(Black) == 0.0 && Green(Black) == 0.0 && Blue(Black) == 0.0
    ensures Black.tuple == Tuples.Zero
  {
  }

  /** A color well formed in the sense of `Color::new`: its tuple has w = 0. */
  predicate Valid(c: Color)
  {
    c.tuple.w == 0.0
  }

  /** Every color is determined by its three channels. */
  lemma ChannelsRoundTrip(c: Color)
    requires Valid(c)
    ensures NewColor(Red(c), Green(c), Blue(c)) == c
  {
  }

  function Add(a: Color, b: Color): (r: Color)
    ensures Valid(a) && Valid(b) ==> Valid(r)
  {
    Color(Tuples.Add(a.tuple, b.tuple))
  }

  /** The difference is what, added back to b, gives a. */
  function Sub(a: Color, b: Color): (r: Color)
    ensures Valid(a) && Valid(b) ==> Valid(r)
    ensures Add(r, b) == a
  {
    Color(Tuples.Sub(a.tuple, b.tuple))
  }

  /** Multiplication by a scalar, the `Mul<f64>` operator. */
  function Scale(a: Color, s: real): (r: Color)
    ensures Valid(a) ==> Valid(r)
  {
    Color(Tuples.Scale(a.tuple, s))
  }

  /** Multiplication of two colors, the `Mul<&Color>` operator: rebuilt from the channel products. */
  function Mul(a: Color, b: Color): (r: Color)
    ensures Valid(r)
  {
    NewColor(Red(a) * Red(b), Green(a) * Green(b), Blue(a) * Blue(b))
  }

  /** `hadamard_product` delegates to the color product. */
  function Hadamard(a: Color, b: Color): Color
  {
    Mul(a, b)
  }

  /** The arithmetic acts channel by channel. */
  lemma ChannelWise(a: Color, b: Color, s: real)
    ensures Red(Add(a, b)) == Red(a) + Red(b) && Green(Add(a, b)) == Green(a) + Green(b) && Blue(Add(a, b)) == Blue(a) + Blue(b)
    ensures Red(Sub(a, b)) == Red(a) - Red(b) && Green(Sub(a, b)) == Green(a) - Green(b) && Blue(Sub(a, b)) == Blue(a) - Blue(b)
    ensures Red(Scale(a, s)) == Red(a) * s && Green(Scale(a, s)) == Green(a) * s && Blue(Scale(a, s)) == Blue(a) * s
    ensures Red(Hadamard(a, b)) == Red(a) * Red(b) && Green(Hadamard(a, b)) == Green(a) * Green(b) && Blue(Hadamard(a, b)) == Blue(a) * Blue(b)
  {
  }

  /** Adding and subtracting the same color cancel; the product is commutative with white as its unit. */
  lemma ColorAlgebra(a: Color, b: Color)
    requires Valid(a)
    ensures Sub(Add(a, b), b) == a
    ensures Mul(a, b) == Mul(b, a)
    ensures Mul(a, NewColor(1.0, 1.0, 1.0)) == a
    ensures Mul(a, Black) == Black
  {
  }

  /** Equality of colors is the tolerant equality of their tuples. */
  predicate ApproxEq(a: Color, b: Color)
  {
    Tuples.ApproxEq(a.tuple, b.tuple)
  }
}
