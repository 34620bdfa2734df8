/**
 * Vocabulary shared by the three accessibility programs: outcomes of calls
 * that may hit a fatal check, the fixed-width id types, the bit-field
 * helpers, and the rectangle arithmetic the hit test and the bounding-box
 * query use.
 */
module Common {

  /** A call either dies on a failed VERIFY (or on undefined behaviour the
    * program would crash on), or it returns a value. */
  datatype Outcome<T> = Aborted | Done(value: T)

  datatype Option<T> = None | Some(value: T)

  /** The UI Automation navigation directions. */
  datatype Direction = Parent | NextSibling | PreviousSibling | FirstChild | LastChild

  /** What a navigation or a point query hands back: nothing, the root
    * provider, or the provider of the element with that id. */
  datatype Target = NoElement | RootElement | Element(id: int)

  const Two32: int := 0x1_0000_0000
  const Two64: int := 0x1_0000_0000_0000_0000

  type u32 = x: int | 0 <= x < Two32
  type u64 = x: int | 0 <= x < Two64

  /** The all-ones value of each width; it is the "invalid id" marker. */
  const Max32: u32 := Two32 - 1
  const Max64: u64 := Two64 - 1

  /** valid_id: neither the root marker 0 nor the all-ones invalid marker. */
  predicate ValidId(id: int, max: int)
  {
    0 < id < max
  }

  function Pow2(n: nat): (r: nat)
    ensures r >= 1
  {
    if n == 0 then 1 else 2 * Pow2(n - 1)
  }

  /** bits(x, start, num): the num-bit field of x that starts at bit start,
    * that is (x >> start) & ((1 << num) - 1) on 64-bit unsigned values. */
  function Bits(x: u64, start: nat, num: nat): (r: nat)
    requires start + num < 64
    ensures r < Pow2(num)
  {
    (x / Pow2(start)) % Pow2(num)
  }

  /** bit(x, b): whether bit b of x is set. */
  function Bit(x: u64, b: nat): (r: bool)
    requires b < 64
  {
    (x / Pow2(b)) % 2 == 1
  }

  lemma Pow2Add(a: nat, b: nat)
    ensures Pow2(a + b) == Pow2(a) * Pow2(b)
  {
    if a > 0 {
      Pow2Add(a - 1, b);
    }
  }

  lemma Pow2Values()
    ensures Pow2(32) == Two32
  {
    Pow2Add(1, 1);
    Pow2Add(2, 2);
    Pow2Add(4, 4);
    Pow2Add(8, 8);
    Pow2Add(16, 16);
  }

  /** A single bit is the one-bit field at that position. */
  lemma BitIsOneBitField(x: u64, b: nat)
    requires b < 63
    ensures Bit(x, b) <==> Bits(x, b, 1) == 1
  {
  }

  /** The low 32 bits of a 64-bit value always fit a 32-bit id. */
  lemma LowBitsFitU32(x: u64)
    ensures Bits(x, 0, 32) < Two32
    ensures Bits(x, 0, 32) == x % Two32
  {
    Pow2Values();
  }

  // ---------------------------------------------------------------------
  // Rectangles (Win32 RECT: left/top inclusive, right/bottom exclusive).

  datatype Rect = Rect(left: int, top: int, right: int, bottom: int)
  datatype Point = Point(x: int, y: int)

  /** contains(r, p): p lies in the half-open box of r. */
  predicate Contains(r: Rect, p: Point)
  {
    r.top <= p.y < r.bottom && r.left <= p.x < r.right
  }

  /** intersection(a, b) as written: the bottom edge is the larger of the two
    * bottoms, not the smaller. */
  function Intersection(a: Rect, b: Rect): Rect
  {
    Rect(Max(a.left, b.left), Max(a.top, b.top), Min(a.right, b.right), Max(a.bottom, b.bottom))
  }

  /** operator+(r, p): r moved by the offset p. */
  function Translate(a: Rect, p: Point): Rect
  {
    Rect(a.left + p.x, a.top + p.y, a.right + p.x, a.bottom + p.y)
  }

  function Max(a: int, b: int): int { if a < b then b else a }
  function Min(a: int, b: int): int { if a < b then a else b }

  /** A point inside both rectangles is inside their intersection. */
  lemma IntersectionKeepsCommonPoints(a: Rect, b: Rect, p: Point)
    requires Contains(a, p) && Contains(b, p)
    ensures Contains(Intersection(a, b), p)
  {
  }

  /** Because of the bottom edge, the intersection also takes in points below
    * the shorter rectangle: it is not contained in both arguments. */
  lemma IntersectionOverreachesBottom()
    ensures var a := Rect(0, 0, 10, 10);
            var b := Rect(0, 0, 10, 20);
            Contains(Intersection(a, b), Point(5, 15)) && !Contains(a, Point(5, 15))
  {
  }

  /** Moving a rectangle and a point by the same offset keeps containment. */
  lemma TranslateKeepsContainment(a: Rect, p: Point, d: Point)
    ensures Contains(Translate(a, d), Point(p.x + d.x, p.y + d.y)) <==> Contains(a, p)
  {
  }

  /** Moving by an offset and then by its opposite gives the rectangle back. */
  lemma TranslateInverse(a: Rect, d: Point)
    ensures Translate(Translate(a, d), Point(-d.x, -d.y)) == a
  {
  }
}
