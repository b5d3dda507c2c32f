/** Two-part integer keys `major * width + minor`: they compare like pairs. */
module MixedRadix {
  lemma Distribute(width: int, a: int, d: int)
    ensures (a + d) * width == a * width + d * width
  {
  }

  lemma AtLeastOneWidth(width: nat, d: int)
    requires d >= 1
    ensures d * width >= width
  {
    Distribute(width, d - 1, 1);
  }

  lemma MajorOrder(width: nat, a: int, r: int, b: int, s: int)
    requires 0 <= r <= width && 0 <= s <= width && a < b
    ensures a * width + r <= b * width
    ensures r < width || s > 0 ==> a * width + r < b * width + s
  {
    var x, y, z := a * width, b * width, (b - a) * width;
    assert y == x + z by { Distribute(width, a, b - a); }
    assert z >= width by { AtLeastOneWidth(width, b - a); }
  }

  /** Keys with minor parts in 1..width compare lexicographically. */
  lemma Lexicographic(width: nat, a: int, r: int, b: int, s: int)
    requires 1 <= r <= width && 1 <= s <= width
    ensures a * width + r <= b * width + s <==> a < b || (a == b && r <= s)
    ensures a * width + r == b * width + s <==> a == b && r == s
  {
    if a < b { MajorOrder(width, a, r, b, s); }
    if b < a { MajorOrder(width, b, s, a, r); }
  }

  /** A key lies in the half-open window of block `b` ending below `e` exactly when it
      belongs to block `b` and its minor part is less than `e`. */
  lemma Window(width: nat, a: int, r: int, b: int, e: int)
    requires 1 <= r < width && 1 <= e < width
    ensures (a * width + r) as real <= (b * width) as real + 0.5 <==> a < b
    ensures (a * width + r) as real <= (b * width + e) as real - 0.5 <==> a < b || (a == b && r < e)
    ensures (a * width + r) as real <= (b * width + e) as real <==> a < b || (a == b && r <= e)
  {
    Lexicographic(width, a, r, b, e);
    if a < b { MajorOrder(width, a, r, b, 0); }
    if b < a { MajorOrder(width, b, e, a, r); }
  }
}
