/** Color (Color.h): three unsigned-char components with equality, a
    lexicographic order, a distance and mixing. */
module Colors {
  import opened Seqs

  /** unsigned char. */
  newtype Byte = x: int | 0 <= x < 256

  datatype Color = Color(r: Byte, g: Byte, b: Byte)

  /** The default constructor's colour. */
  const Black := Color(0, 0, 0)

  /** operator==: component-wise equality, which is equality of colours. */
  function Equal(a: Color, f: Color): (res: bool)
    ensures res <==> a == f
  {
    a.r == f.r && a.g == f.g && a.b == f.b
  }

  /** operator<: red first, then green, then blue. */
  function Less(a: Color, f: Color): bool
  {
    if a.r != f.r then a.r < f.r
    else if a.g != f.g then a.g < f.g
    else a.b < f.b
  }

  /** < is a strict total order: irreflexive, and exactly one of a < f,
      f < a and a == f holds. */
  lemma LessTotal(a: Color, f: Color)
    ensures !Less(a, a)
    ensures Less(a, f) ==> !Less(f, a)
    ensures Less(a, f) || Less(f, a) || a == f
  {
  }

  lemma LessTransitive(a: Color, b: Color, c: Color)
    requires Less(a, b) && Less(b, c)
    ensures Less(a, c)
  {
  }

  /** operator-: the sum of the absolute component differences, computed
      in int after promotion. Zero exactly for equal colours, and at most
      3 * 255. */
  function Distance(a: Color, f: Color): (d: int)
    ensures 0 <= d <= 765
    ensures d == 0 <==> a == f
  {
    Abs(a.r as int - f.r as int) + Abs(a.g as int - f.g as int) + Abs(a.b as int - f.b as int)
  }

  lemma DistanceSymmetric(a: Color, f: Color)
    ensures Distance(a, f) == Distance(f, a)
  {
  }

  /** The distance is a metric: it obeys the triangle inequality. */
  lemma DistanceTriangle(a: Color, b: Color, c: Color)
    ensures Distance(a, c) <= Distance(a, b) + Distance(b, c)
  {
  }

  /** v lies between u and w, in either order. */
  predicate Between(v: Byte, u: Byte, w: Byte)
  {
    (u <= v <= w) || (w <= v <= u)
  }

  /** mix: each component becomes the average of the two, rounded down
      (the sum is non-negative, so int division floors). */
  function Mix(a: Color, c: Color): (m: Color)
    ensures Between(m.r, a.r, c.r) && Between(m.g, a.g, c.g) && Between(m.b, a.b, c.b)
    ensures 2 * (m.r as int) <= a.r as int + c.r as int <= 2 * (m.r as int) + 1
    ensures 2 * (m.g as int) <= a.g as int + c.g as int <= 2 * (m.g as int) + 1
    ensures 2 * (m.b as int) <= a.b as int + c.b as int <= 2 * (m.b as int) + 1
  {
    var r1 := a.r as int + c.r as int;
    var g1 := a.g as int + c.g as int;
    var b1 := a.b as int + c.b as int;
    Color((r1 / 2) as Byte, (g1 / 2) as Byte, (b1 / 2) as Byte)
  }

  /** Mixing with an equal colour changes nothing. */
  lemma MixSame(a: Color)
    ensures Mix(a, a) == a
  {
  }

  /** The order of mixing does not matter. */
  lemma MixSymmetric(a: Color, c: Color)
    ensures Mix(a, c) == Mix(c, a)
  {
  }
}
