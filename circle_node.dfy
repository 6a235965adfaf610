/** One rotating node of the chain: the list links of `Node` together with the
    angle, speed, radius and offset of `CompoundCircleNodeModel`, which inherits
    from it. */
module CircleNode {
  import opened Geometry

  /** `2.0 * Math.PI`, written as the exact value of the double it evaluates to. */
  const TwoPi: real := 6.28318530717958623199592693708837032318115234375

  /** `Math.cos` and `Math.sin`. They are not modelled; the caller supplies them. */
  datatype Trig = Trig(cos: real -> real, sin: real -> real)

  /** The integer part of q, rounded toward zero. */
  function Trunc(q: real): int
  {
    if q >= 0.0 then q.Floor else -((-q).Floor)
  }

  /** JavaScript's `a % m` for a positive m: the remainder of truncating
      division, which takes the sign of `a`. */
  function Rem(a: real, m: real): (r: real)
    requires m > 0.0
    ensures 0.0 <= a ==> 0.0 <= r < m
    ensures a < 0.0 ==> -m < r <= 0.0
    ensures -m < a < m ==> r == a
  {
    RemBounds(a, m);
    a - Trunc(a / m) as real * m
  }

  lemma RemBounds(a: real, m: real)
    requires m > 0.0
    ensures 0.0 <= a ==> 0.0 <= a - Trunc(a / m) as real * m < m
    ensures a < 0.0 ==> -m < a - Trunc(a / m) as real * m <= 0.0
    ensures -m < a < m ==> Trunc(a / m) == 0
  {
    Quotient(a, m);
    if 0.0 <= a {
      BracketAbove(a, m);
    } else {
      BracketBelow(a, m);
    }
  }

  /** Facts about a / m for a positive m: it undoes multiplication, keeps the
      sign of a, lies strictly between -1 and 1 exactly when a lies strictly
      between -m and m, and grows by one when a grows by m. */
  lemma Quotient(a: real, m: real)
    requires m > 0.0
    ensures (a / m) * m == a
    ensures 0.0 <= a <==> 0.0 <= a / m
    ensures -m < a < m <==> -1.0 < a / m < 1.0
    ensures (a + m) / m == a / m + 1.0
  {
    var q := a / m;
    assert q * m == a;
    MulSign(q, m);
    MulSign(-q, m);
    MulSign(q - 1.0, m);
    MulSign(-q - 1.0, m);
    Distrib(q, 1.0, m);
    Distrib(0.0, q, m);
    Distrib(-q, 1.0, m);
    Distrib(q, 0.0, m);
    QuotientShift(a, m);
  }

  lemma QuotientShift(a: real, m: real)
    requires m > 0.0
    ensures (a + m) / m == a / m + 1.0
  {
    var q := a / m;
    var q' := (a + m) / m;
    assert q * m == a;
    assert q' * m == a + m;
    var d := q' - (q + 1.0);
    Distrib(q', q + 1.0, m);
    Distrib(q, 0.0, m);
    Distrib(d, 0.0, m);
    MulSign(d, m);
    MulSign(-d, m);
    assert d * m == q' * m - (q + 1.0) * m;
    assert d * m == 0.0;
    assert d == 0.0;
  }

  /** For a non-negative a, a lies in the turn [t * m, t * m + m) that
      truncation picks. */
  lemma BracketAbove(a: real, m: real)
    requires m > 0.0 && 0.0 <= a
    ensures Trunc(a / m) as real * m <= a < Trunc(a / m) as real * m + m
  {
    var q := a / m;
    Quotient(a, m);
    var t := Trunc(q) as real;
    var f := q - t;
    assert 0.0 <= f < 1.0;
    assert q == t + f;
    Split(t, f, m);
    MulSign(f, m);
    Between(a, t * m, f * m, m);
  }

  /** For a negative a, truncation rounds up, so a lies in (t * m - m, t * m]. */
  lemma BracketBelow(a: real, m: real)
    requires m > 0.0 && a < 0.0
    ensures Trunc(a / m) as real * m - m < a <= Trunc(a / m) as real * m
  {
    var q := a / m;
    Quotient(a, m);
    var t := Trunc(q) as real;
    var f := t - q;
    assert 0.0 <= f < 1.0;
    assert q == t + (-f);
    Split(t, -f, m);
    Distrib(f, 0.0, m);
    MulSign(f, m);
    Between(t * m, a, f * m, m);
  }

  lemma MulSign(x: real, m: real)
    requires m > 0.0
    ensures x >= 0.0 ==> x * m >= 0.0
    ensures x > 0.0 ==> x * m > 0.0
    ensures x < 1.0 ==> x * m < m
  {
  }

  lemma Distrib(x: real, y: real, m: real)
    ensures (x - y) * m == x * m - y * m
    ensures (x + 1.0) * m == x * m + m
    ensures (-x) * m == -(x * m)
  {
  }

  lemma Split(t: real, f: real, m: real)
    ensures (t + f) * m == t * m + f * m
  {
  }

  lemma Between(a: real, base: real, frac: real, m: real)
    requires a == base + frac && 0.0 <= frac < m
    ensures base <= a < base + m
  {
  }

  /** Adding one whole turn to a non-negative angle does not change its
      remainder. */
  lemma RemPeriodic(a: real, m: real)
    requires m > 0.0 && a >= 0.0
    ensures Rem(a + m, m) == Rem(a, m)
  {
    Quotient(a, m);
    var t := Trunc(a / m);
    assert Trunc((a + m) / m) == t + 1;
    Distrib(t as real, 0.0, m);
  }

  /** The state of one node, as values. */
  datatype Circle = Circle(azimuth: real, radius: real, speed: real, pos: Vec)

  /** A freshly constructed node: radius 0.1, azimuth 0.0, speed 1.0, and the
      position (0.1, 0.0) it is given before any update. */
  const Initial := Circle(0.0, 0.1, 1.0, Vec(0.1, 0.0))

  /** The offset of a node at angle `azimuth` on a circle of `radius`. */
  function Offset(azimuth: real, radius: real, trig: Trig): Vec
  {
    Vec(trig.cos(azimuth) * radius, trig.sin(azimuth) * radius)
  }

  /** A node whose position agrees with its angle and radius. */
  predicate Consistent(c: Circle, trig: Trig)
  {
    c.pos == Offset(c.azimuth, c.radius, trig)
  }

  /** The angle a node reaches after `timeDelta` seconds, before wrapping. */
  function Advance(c: Circle, timeDelta: real): real
  {
    c.azimuth + c.speed * timeDelta
  }

  /** The effect of one `update(timeDelta)` on a node's state. */
  function Step(c: Circle, timeDelta: real, trig: Trig): Circle
  {
    var azimuth := Rem(Advance(c, timeDelta), TwoPi);
    Circle(azimuth, c.radius, c.speed, Offset(azimuth, c.radius, trig))
  }

  /** An update keeps radius and speed, leaves the position consistent with the
      new angle, and brings a non-negative angle into [0, 2π). */
  lemma StepKeepsShape(c: Circle, timeDelta: real, trig: Trig)
    ensures Step(c, timeDelta, trig).radius == c.radius
    ensures Step(c, timeDelta, trig).speed == c.speed
    ensures Consistent(Step(c, timeDelta, trig), trig)
    ensures 0.0 <= Advance(c, timeDelta) ==> 0.0 <= Step(c, timeDelta, trig).azimuth < TwoPi
  {
  }

  /** While the advanced angle stays below one turn it is not wrapped; once it
      reaches one turn (and is below two) exactly one turn is taken off. */
  lemma StepAdvancesAngle(c: Circle, timeDelta: real, trig: Trig)
    ensures 0.0 <= Advance(c, timeDelta) < TwoPi ==>
      Step(c, timeDelta, trig).azimuth == Advance(c, timeDelta)
    ensures TwoPi <= Advance(c, timeDelta) < 2.0 * TwoPi ==>
      Step(c, timeDelta, trig).azimuth == Advance(c, timeDelta) - TwoPi
  {
    var a := Advance(c, timeDelta);
    if TwoPi <= a < 2.0 * TwoPi {
      var b := a - TwoPi;
      RemPeriodic(b, TwoPi);
      assert b + TwoPi == a;
      assert Rem(b, TwoPi) == b;
    }
  }

  /** An update by zero seconds leaves a consistent node whose angle is less
      than one turn away from zero, on either side, exactly as it was: `%`
      keeps such an angle and its sign. */
  lemma StepZeroIsIdentity(c: Circle, trig: Trig)
    requires -TwoPi < c.azimuth < TwoPi && Consistent(c, trig)
    ensures Step(c, 0.0, trig) == c
  {
  }

  /** The source's `Node` and `CompoundCircleNodeModel` in one class. */
  class Node {
    var next: Node?
    var prev: Node?
    var azimuth: real
    const radius: real
    const speed: real
    const pos: Point

    constructor ()
      ensures next == null && prev == null
      ensures State() == Initial
      ensures fresh(pos)
    {
      next := null;
      prev := null;
      azimuth := 0.0;
      radius := 0.1;
      speed := 1.0;
      pos := new Point(0.1, 0.0);
    }

    ghost function State(): Circle
      reads this`azimuth, pos
    {
      Circle(azimuth, radius, speed, pos.Value())
    }

    /** Advances the angle by `speed * timeDelta`, wraps it with `%` by 2π and
        moves the position onto the circle at the new angle. */
    method Update(timeDelta: real, trig: Trig)
      modifies this`azimuth, pos
      ensures State() == Step(old(State()), timeDelta, trig)
    {
      ghost var before := State();
      var azimuthDelta := speed * timeDelta;
      azimuth := azimuth + azimuthDelta;
      assert azimuth == Advance(before, timeDelta);
      azimuth := Rem(azimuth, TwoPi);
      UpdatePosition(trig);
    }

    method UpdatePosition(trig: Trig)
      modifies pos
      ensures pos.Value() == Offset(azimuth, radius, trig)
    {
      var x := trig.cos(azimuth) * radius;
      var y := trig.sin(azimuth) * radius;
      pos.Set(x, y);
    }
  }
}
