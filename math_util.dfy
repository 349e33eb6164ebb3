/** The sign and clamp templates, on exact reals (the grid uses them on
    floats; rounding is not modelled). */
module MathUtil {

  /** signum(v): -1, 0 or 1 according to the sign of v. */
  function Signum(v: real): (r: real)
    ensures r == -1.0 || r == 0.0 || r == 1.0
    ensures r == -1.0 <==> v < 0.0
    ensures r == 1.0 <==> v > 0.0
  {
    if v < 0.0 then -1.0
    else if v > 0.0 then 1.0
    else 0.0
  }

  /** The magnitude of a real. */
  function Magnitude(v: real): (r: real)
    ensures r >= 0.0 && (r == v || r == -v)
  {
    if v < 0.0 then -v else v
  }

  /** The sign times the magnitude gives the value back. */
  lemma SignumTimesMagnitude(v: real)
    ensures Signum(v) * Magnitude(v) == v
  {
  }

  /** std::max: the first argument unless it is less than the second. */
  function StdMax(a: real, b: real): (r: real)
    ensures r >= a && r >= b && (r == a || r == b)
  {
    if a < b then b else a
  }

  /** std::min: the first argument unless the second is less than it. */
  function StdMin(a: real, b: real): (r: real)
    ensures r <= a && r <= b && (r == a || r == b)
  {
    if b < a then b else a
  }

  /** clamp(minv, v, maxv): min(max(minv, v), maxv). */
  function Clamp(minv: real, v: real, maxv: real): (r: real)
    ensures r <= maxv
    ensures minv <= maxv ==> minv <= r
  {
    StdMin(StdMax(minv, v), maxv)
  }

  /** A value already in range comes back unchanged. */
  lemma ClampKeeps(minv: real, v: real, maxv: real)
    requires minv <= v <= maxv
    ensures Clamp(minv, v, maxv) == v
  {
  }

  /** Below the range gives the lower bound, above it the upper bound. */
  lemma ClampOutside(minv: real, v: real, maxv: real)
    requires minv <= maxv
    ensures v < minv ==> Clamp(minv, v, maxv) == minv
    ensures v > maxv ==> Clamp(minv, v, maxv) == maxv
  {
  }

  /** With the bounds the wrong way round the upper bound always wins. */
  lemma ClampInverted(minv: real, v: real, maxv: real)
    requires minv > maxv
    ensures Clamp(minv, v, maxv) == maxv
  {
  }

  /** Clamping twice is clamping once. */
  lemma ClampIdempotent(minv: real, v: real, maxv: real)
    ensures Clamp(minv, Clamp(minv, v, maxv), maxv) == Clamp(minv, v, maxv)
  {
  }

  /** Clamping preserves order. */
  lemma ClampMonotone(minv: real, v: real, w: real, maxv: real)
    requires v <= w
    ensures Clamp(minv, v, maxv) <= Clamp(minv, w, maxv)
  {
  }
}
