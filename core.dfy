/**
 * djvCore: the integer `glm::ivec2` arithmetic that `Box2<int>` relies on, and
 * the integer box itself (lib/djvCore/Box2Inline.h).
 *
 * Integers are unbounded here: signed overflow is undefined behaviour in C++,
 * so there is no wrap-around to model.
 */
module Core {

  function Abs(a: int): nat
  {
    if a < 0 then -a else a
  }

  /**
   * C++ integer division, which truncates toward zero (Dafny's `/` is
   * Euclidean). The magnitude is the quotient of the magnitudes and the sign
   * is negative exactly when the operands' signs differ.
   */
  function Quot(a: int, b: int): (q: int)
    requires b != 0
    ensures Abs(q) == Abs(a) / Abs(b)
    ensures q > 0 ==> (a > 0) == (b > 0)
    ensures q < 0 ==> (a > 0) != (b > 0)
  {
    var m := Abs(a) / Abs(b);
    assert a == 0 ==> m == 0;
    if (a < 0) == (b < 0) then m else -m
  }

  /**
   * The C++ identity `(a / b) * b + a % b == a` with the remainder that goes
   * with truncation: smaller than the divisor in magnitude, and never of the
   * opposite sign to the dividend.
   */
  lemma QuotRemainder(a: int, b: int)
    requires b != 0
    ensures Abs(a - Quot(a, b) * b) < Abs(b)
    ensures a - Quot(a, b) * b != 0 ==> (a - Quot(a, b) * b > 0) == (a > 0)
  {
    var A: int, B: int := Abs(a), Abs(b);
    var m: int, r: int := A / B, A % B;
    assert A == m * B + r && 0 <= r < B;
    var q := Quot(a, b);
    if (a < 0) == (b < 0) {
      assert q == m;
      if a >= 0 {
        assert q * b == m * B;
        assert a - q * b == r;
      } else {
        NegMul(m, B);
        assert q * b == -(m * B);
        assert a - q * b == -r;
      }
    } else {
      assert q == -m;
      NegMul(m, B);
      if a >= 0 {
        assert b == -B;
        assert q * b == m * B;
        assert a - q * b == r;
      } else {
        assert b == B;
        assert q * b == -(m * B);
        assert a - q * b == -r;
      }
    }
  }

  lemma NegMul(x: int, y: int)
    ensures (-x) * y == -(x * y) == x * (-y)
    ensures (-x) * (-y) == x * y
  {
  }

  /** `glm::ivec2` with the component-wise operators the box uses. */
  datatype IVec2 = IVec2(x: int, y: int)
  {
    function Plus(v: IVec2): IVec2 { IVec2(x + v.x, y + v.y) }

    function Minus(v: IVec2): IVec2 { IVec2(x - v.x, y - v.y) }

    /** A vector plus a scalar, added to each component. */
    function PlusScalar(s: int): IVec2 { IVec2(x + s, y + s) }

    function Times(v: IVec2): IVec2 { IVec2(x * v.x, y * v.y) }

    function TimesScalar(s: int): IVec2 { IVec2(x * s, y * s) }

    function Over(v: IVec2): IVec2
      requires v.x != 0 && v.y != 0
    {
      IVec2(Quot(x, v.x), Quot(y, v.y))
    }

    function OverScalar(s: int): IVec2
      requires s != 0
    {
      IVec2(Quot(x, s), Quot(y, s))
    }
  }

  const Origin := IVec2(0, 0)

  /**
   * `Box2<int>`: a position and a size. The C++ class also exposes the four
   * components through the reference members x, y, w and h; here they are
   * `position.x`, `position.y`, `size.x` and `size.y`.
   */
  class Box2 {
    var position: IVec2
    var size: IVec2

    /** Box2(): everything zero, hence not valid. */
    constructor ()
      ensures position == Origin && size == Origin
      ensures !IsValid()
    {
      position := Origin;
      size := Origin;
    }

    /** Box2(const Box2 &): copies both vectors. */
    constructor Copy(other: Box2)
      ensures position == other.position && size == other.size
    {
      position := other.position;
      size := other.size;
    }

    /** Box2(position, size). */
    constructor FromPositionSize(position: IVec2, size: IVec2)
      ensures this.position == position && this.size == size
    {
      this.position := position;
      this.size := size;
    }

    /** Box2(size): placed at the origin. */
    constructor FromSize(size: IVec2)
      ensures position == Origin && this.size == size
    {
      position := Origin;
      this.size := size;
    }

    /** Box2(x, y, w, h): assigns the four components through x, y, w and h. */
    constructor FromComponents(x: int, y: int, w: int, h: int)
      ensures position == IVec2(x, y) && size == IVec2(w, h)
    {
      position := Origin;
      size := Origin;
      new;
      position := position.(x := x);
      position := position.(y := y);
      size := size.(x := w);
      size := size.(y := h);
    }

    /** Box2(w, h): placed at the origin, size assigned through w and h. */
    constructor FromWidthHeight(w: int, h: int)
      ensures position == Origin && size == IVec2(w, h)
    {
      position := Origin;
      size := Origin;
      new;
      size := size.(x := w);
      size := size.(y := h);
    }

    /**
     * isValid: both size components are positive, which for integer boxes is
     * exactly when the inclusive corners enclose at least one pixel.
     */
    function IsValid(): (valid: bool)
      reads this
      ensures valid <==> position.x <= LowerRight().x && position.y <= LowerRight().y
    {
      size.x > 0 && size.y > 0
    }

    /** zero(): all four components become 0, which leaves the box invalid. */
    method Zero()
      modifies this
      ensures position == Origin && size == Origin
      ensures !IsValid()
    {
      position := position.(x := 0);
      position := position.(y := 0);
      size := size.(x := 0);
      size := size.(y := 0);
    }

    /**
     * The integer specialisation: the last pixel inside the box, the corner
     * from which setLowerRight recovers the box's size.
     */
    function LowerRight(): (corner: IVec2)
      reads this
      ensures corner.Minus(position).PlusScalar(1) == size
    {
      position.Plus(size).PlusScalar(-1)
    }

    /**
     * The integer specialisation: keeps the position and resizes the box so
     * that `p` is its last pixel. Feeding back the box's own lower right
     * corner changes nothing.
     */
    method SetLowerRight(p: IVec2)
      modifies this
      ensures position == old(position)
      ensures size == p.Minus(position).PlusScalar(1)
      ensures LowerRight() == p
      ensures p == old(LowerRight()) ==> size == old(size)
    {
      size := p.Minus(position).PlusScalar(1);
    }

    /** operator=: copies the other box; assigning a box to itself is a no-op. */
    method Assign(other: Box2)
      modifies this
      ensures position == old(other.position) && size == old(other.size)
    {
      if other != this {
        position := other.position;
        size := other.size;
      }
    }

    /** operator*=(ivec2): scales position and size by the same factors. */
    method MultiplyBy(v: IVec2)
      modifies this
      ensures position == old(position).Times(v) && size == old(size).Times(v)
    {
      position := position.Times(v);
      size := size.Times(v);
    }

    /** operator*=(int). */
    method MultiplyByScalar(s: int)
      modifies this
      ensures position == old(position).Times(IVec2(s, s))
      ensures size == old(size).Times(IVec2(s, s))
    {
      position := position.TimesScalar(s);
      size := size.TimesScalar(s);
    }

    /** operator/=(ivec2): truncating division of both vectors; divisors must be non-zero. */
    method DivideBy(v: IVec2)
      requires v.x != 0 && v.y != 0
      modifies this
      ensures position == IVec2(Quot(old(position.x), v.x), Quot(old(position.y), v.y))
      ensures size == IVec2(Quot(old(size.x), v.x), Quot(old(size.y), v.y))
    {
      position := position.Over(v);
      size := size.Over(v);
    }

    /** operator/=(int). */
    method DivideByScalar(s: int)
      requires s != 0
      modifies this
      ensures position == old(position).Over(IVec2(s, s))
      ensures size == old(size).Over(IVec2(s, s))
    {
      position := position.OverScalar(s);
      size := size.OverScalar(s);
    }
  }
}
