/**
 * The grid point of the snake game: a pair of 16-bit signed coordinates in
 * canvas space, with the component-wise "move" and the `+` / `-` operators
 * the game uses for speeds and heads.
 */
module Geometry {

  /** The range of a C `int16_t`. */
  type Int16 = v: int | -0x8000 <= v < 0x8000

  /**
   * The value an `int16_t` holds after an `int` result in the range of a sum
   * of two `int16_t` values is stored into it: two's-complement wrap-around
   * modulo 2^16.
   */
  function Wrap16(v: int): (r: Int16)
    requires -0x1_0000 <= v <= 0x1_0000
    ensures -0x8000 <= v < 0x8000 ==> r == v
    ensures (r - v) % 0x1_0000 == 0
  {
    if v < -0x8000 then v + 0x1_0000
    else if v >= 0x8000 then v - 0x1_0000
    else v
  }

  datatype Point = Point(x: Int16, y: Int16)

  /** The zero vector: the speed of an idle snake. */
  const Origin := Point(0, 0)

  /** The apple sentinel: `(-1, -1)` means that no apple is placed. */
  const NoApple := Point(-1, -1)

  /** `Point::move`: shift `p` by `d` component-wise, each sum stored back into an `int16_t`. */
  function Moved(p: Point, d: Point): (r: Point)
    ensures -0x8000 <= p.x + d.x < 0x8000 && -0x8000 <= p.y + d.y < 0x8000 ==>
              r == Point(p.x + d.x, p.y + d.y)
    ensures (r.x - (p.x + d.x)) % 0x1_0000 == 0 && (r.y - (p.y + d.y)) % 0x1_0000 == 0
  {
    Point(Wrap16(p.x + d.x), Wrap16(p.y + d.y))
  }

  /** `Point::operator==`: both coordinates agree. */
  function Equal(p: Point, q: Point): (r: bool)
    ensures r <==> p == q
  {
    q.x == p.x && q.y == p.y
  }

  /** `Point::operator!=`: some coordinate differs. */
  function NotEqual(p: Point, q: Point): (r: bool)
    ensures r <==> !Equal(p, q)
  {
    q.x != p.x || q.y != p.y
  }

  /** `p + q`: a copy of `q` moved by `p`. */
  function Plus(p: Point, q: Point): (r: Point)
    ensures r == Moved(p, q)
  {
    Moved(q, p)
  }

  /** `p - q`: the operator simply calls `operator+`, so it is NOT a vector difference. */
  function Minus(p: Point, q: Point): (r: Point)
    ensures r == Plus(q, p)
  {
    Plus(p, q)
  }

  /** The additive inverse in 16-bit arithmetic (`-(-32768)` wraps to itself). */
  function Negate(p: Point): (r: Point)
    ensures Plus(p, r) == Origin
  {
    var r := Point(Wrap16(-(p.x as int)), Wrap16(-(p.y as int)));
    assert Plus(p, r) == Origin by { WrapSumZero(p.x, Wrap16(-(p.x as int))); WrapSumZero(p.y, Wrap16(-(p.y as int))); }
    r
  }

  /** For 16-bit `a` and `b`, the wrapped sum is zero exactly when `b` is the wrapped negation of `a`. */
  lemma WrapSumZero(a: Int16, b: Int16)
    ensures Wrap16(a + b) == 0 <==> b == Wrap16(-(a as int))
  {
    if a == -0x8000 {
      assert Wrap16(-(a as int)) == -0x8000;
      assert Wrap16(a + b) == 0 <==> b == -0x8000 by {
        if b == -0x8000 { assert a + b == -0x1_0000; }
        else if a + b < -0x8000 { assert Wrap16(a + b) == a + b + 0x1_0000; }
      }
    } else {
      assert Wrap16(-(a as int)) == -a;
      assert Wrap16(a + b) == 0 <==> b == -a by {
        if a + b < -0x8000 { assert Wrap16(a + b) == a + b + 0x1_0000; }
        else if a + b >= 0x8000 { assert Wrap16(a + b) == a + b - 0x1_0000; }
      }
    }
  }

  /**
   * The reversal gate's test: `p - q` is the zero vector exactly when `q` is the
   * NEGATION of `p`, not when the two are equal.
   */
  lemma MinusZeroIff(p: Point, q: Point)
    ensures Minus(p, q) == Origin <==> q == Negate(p)
  {
    WrapSumZero(p.x, q.x);
    WrapSumZero(p.y, q.y);
    assert Minus(p, q) == Point(Wrap16(p.x + q.x), Wrap16(p.y + q.y));
    assert Negate(p) == Point(Wrap16(-(p.x as int)), Wrap16(-(p.y as int)));
  }

  /** `-` is not a difference: a non-zero point minus itself is not the origin. */
  lemma MinusOfEqualIsNotZero(p: Point)
    requires -0x4000 <= p.x < 0x4000 && -0x4000 <= p.y < 0x4000
    requires p != Origin
    ensures Minus(p, p) != Origin
    ensures Minus(p, p) == Point(2 * p.x, 2 * p.y)
  {
  }

  /** Addition is commutative, also under wrap-around. */
  lemma {:induction false} PlusCommutes(p: Point, q: Point)
    ensures Plus(p, q) == Plus(q, p)
  {
    assert p.x + q.x == q.x + p.x && p.y + q.y == q.y + p.y;
  }

  /** The origin is the identity of `+`. */
  lemma PlusOrigin(p: Point)
    ensures Plus(p, Origin) == p && Plus(Origin, p) == p
  {
  }
}
