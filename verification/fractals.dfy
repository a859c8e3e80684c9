/** Escape-time fractal evaluation (src/basicfractals.rs): the shared `julia`
    escape loop and the two evaluators built on it, Mandelbrot and Julia.
    Complex numbers are pairs of mathematical reals, so `z*z + c` and
    `norm_sqr` are exact; f64/f32 rounding is not modelled. */
module Fractals {

  import opened Numeric

  datatype Complex = Complex(re: real, im: real)

  const Zero: Complex := Complex(0.0, 0.0)

  function Add(a: Complex, b: Complex): Complex {
    Complex(a.re + b.re, a.im + b.im)
  }

  function Mul(a: Complex, b: Complex): Complex {
    Complex(a.re * b.re - a.im * b.im, a.re * b.im + a.im * b.re)
  }

  function NormSqr(z: Complex): real {
    z.re * z.re + z.im * z.im
  }

  /** One step of the quadratic recurrence. */
  function Step(z: Complex, c: Complex): Complex {
    Add(Mul(z, z), c)
  }

  /** The n-th iterate of `z -> z*z + c` starting from `z`. */
  function Orbit(z: Complex, c: Complex, n: nat): Complex
    decreases n
  {
    if n == 0 then z else Orbit(Step(z, c), c, n - 1)
  }

  /** The escape test of the loop: squared modulus above 4. */
  predicate Escaped(z: Complex) {
    NormSqr(z) > 4.0
  }

  /** The `for i in 0..max_i` loop of `julia`, entered at iteration `i` with the
      current value `z` (the i-th iterate of the original start). */
  function EscapeLoop(z: Complex, c: Complex, i: nat, maxI: nat): (r: nat)
    ensures r == 0 || i <= r < maxI
    ensures r != 0 ==>
              Escaped(Orbit(z, c, r - i)) && forall k :: 0 <= k < r - i ==> !Escaped(Orbit(z, c, k))
    ensures (forall k :: 0 <= k < maxI - i ==> !Escaped(Orbit(z, c, k))) ==> r == 0
    ensures r == 0 && i < maxI ==>
              (i == 0 && Escaped(z)) || forall k :: 0 <= k < maxI - i ==> !Escaped(Orbit(z, c, k))
    decreases maxI - i
  {
    if i >= maxI then 0
    else if Escaped(z) then i
    else EscapeLoop(Step(z, c), c, i + 1, maxI)
  }

  /** `julia(z, c, max_i)`: the index of the first iterate that escapes, where
      an escape at index 0 is reported as 0, the same as never escaping. */
  function EscapeCount(z: Complex, c: Complex, maxI: U32): (r: U32)
    ensures r < maxI || r == 0
    ensures r > 0 ==> Escaped(Orbit(z, c, r)) && forall k :: 0 <= k < r ==> !Escaped(Orbit(z, c, k))
    ensures r == 0 ==>
              maxI == 0 || Escaped(z) || forall k :: 0 <= k < maxI ==> !Escaped(Orbit(z, c, k))
    ensures maxI == 0 || Escaped(z) || (forall k :: 0 <= k < maxI ==> !Escaped(Orbit(z, c, k))) ==> r == 0
  {
    assert Orbit(z, c, 0) == z;
    EscapeLoop(z, c, 0, maxI)
  }

  /** The f32 result of `calc`; `NaN` is what `0.0 / 0.0` gives when maxiter is 0. */
  datatype Value = Num(v: real) | NaN

  /** The two implementers of the `Fractal` trait, as one sum type. */
  datatype Fractal = Mandelbrot(maxiter: U32) | Julia(c: Complex, maxiter: U32) {

    /** The start of the orbit for a point: Mandelbrot starts at 0, Julia at the point. */
    function Start(p: Complex): Complex {
      match this
      case Mandelbrot(_) => Zero
      case Julia(_, _) => p
    }

    /** The additive constant: Mandelbrot adds the point, Julia its fixed `c`. */
    function Param(p: Complex): Complex {
      match this
      case Mandelbrot(_) => p
      case Julia(c, _) => c
    }

    /** `calc`: the escape count normalised by maxiter. */
    function Calc(p: Complex): (r: Value)
      ensures r.NaN? <==> maxiter == 0
      ensures r.Num? ==> 0.0 <= r.v < 1.0
      ensures r.Num? ==> r.v <= (maxiter - 1) as real / maxiter as real
    {
      if maxiter == 0 then NaN
      else Num(Fraction(EscapeCount(Start(p), Param(p), maxiter), maxiter))
    }

    /** `change_maxiter`: a new evaluator of the same variant (and, for Julia,
        the same constant) whose budget is `f` of the old one; `this` is a
        value and is left as it was. */
    function ChangeMaxiter(f: U32 -> U32): (r: Fractal)
      ensures r == this.(maxiter := f(maxiter))
      ensures r.Mandelbrot? <==> this.Mandelbrot?
    {
      match this
      case Mandelbrot(n) => Mandelbrot(f(n))
      case Julia(c, n) => Julia(c, f(n))
    }
  }

  /** `i as f32 / n as f32`, without the rounding. */
  function Fraction(i: nat, n: nat): (r: real)
    requires i < n
    ensures 0.0 <= r < 1.0
    ensures r * n as real == i as real
    ensures r == 0.0 <==> i == 0
    ensures r <= (n - 1) as real / n as real
  {
    var q := i as real / n as real;
    assert q * n as real == i as real;
    q
  }

  /** Mandelbrot at `p` is the Julia set with constant `p` evaluated at the origin. */
  lemma VariantsSwapRoles(p: Complex, n: U32)
    ensures Mandelbrot(n).Calc(p) == Julia(p, n).Calc(Zero)
  {
  }

  /** `julia` returns the first escape index when it lies in 1..max_i-1. */
  lemma EscapeCountIsFirstEscape(z: Complex, c: Complex, maxI: U32, k: nat)
    requires 0 < k < maxI
    requires Escaped(Orbit(z, c, k))
    requires forall j :: 0 <= j < k ==> !Escaped(Orbit(z, c, j))
    ensures EscapeCount(z, c, maxI) == k
  {
    assert !Escaped(Orbit(z, c, 0));
  }

  /** `calc` reads 0 exactly when the orbit escapes at once or not within the
      budget: the value the palette paints black. */
  lemma CalcZeroIffNoLaterEscape(f: Fractal, p: Complex)
    requires f.maxiter > 0
    ensures f.Calc(p) == Num(0.0) ==>
              Escaped(f.Start(p))
              || forall k :: 0 <= k < f.maxiter ==> !Escaped(Orbit(f.Start(p), f.Param(p), k))
    ensures Escaped(f.Start(p))
              || (forall k :: 0 <= k < f.maxiter ==> !Escaped(Orbit(f.Start(p), f.Param(p), k)))
            ==> f.Calc(p) == Num(0.0)
  {
    var z, c := f.Start(p), f.Param(p);
    var i := EscapeCount(z, c, f.maxiter);
    assert f.Calc(p) == Num(Fraction(i, f.maxiter));
  }

  /** A fixed point of the recurrence is its own orbit. */
  lemma {:induction false} OrbitOfFixedPoint(z: Complex, c: Complex, n: nat)
    requires Step(z, c) == z
    ensures Orbit(z, c, n) == z
  {
    if n > 0 {
      assert Orbit(z, c, n) == Orbit(Step(z, c), c, n - 1);
      OrbitOfFixedPoint(z, c, n - 1);
    }
  }

  lemma OriginIsFixedPoint()
    ensures Step(Zero, Zero) == Zero && !Escaped(Zero)
  {
    assert Mul(Zero, Zero) == Zero;
    assert NormSqr(Zero) == 0.0;
  }

  lemma OriginOrbitStaysInside(k: nat)
    ensures !Escaped(Orbit(Zero, Zero, k))
  {
    OriginIsFixedPoint();
    OrbitOfFixedPoint(Zero, Zero, k);
  }

  /** The origin never leaves the Mandelbrot set: its value is 0 for every budget. */
  lemma MandelbrotOriginIsInside(n: U32)
    requires n > 0
    ensures Mandelbrot(n).Calc(Zero) == Num(0.0)
  {
    forall k | 0 <= k < n
      ensures !Escaped(Orbit(Zero, Zero, k))
    {
      OriginOrbitStaysInside(k);
    }
    var r := EscapeCount(Zero, Zero, n);
    assert r == 0;
    assert Mandelbrot(n).Calc(Zero) == Num(Fraction(r, n));
  }

  /** A Julia start point already outside radius 2 escapes at index 0 and so is
      reported exactly like a point that never escapes. */
  lemma ImmediateEscapeReadsAsInside(c: Complex, n: U32, p: Complex)
    requires n > 0 && Escaped(p)
    ensures Julia(c, n).Calc(p) == Num(0.0)
  {
  }

  /** Mandelbrot at 2+2i: the orbit 0, 2+2i escapes at index 1, so the value is
      1/maxiter once maxiter is at least 2; with a budget of 1 it reads 0. */
  lemma MandelbrotAtTwoPlusTwoI(n: U32)
    requires n > 0
    ensures n == 1 ==> Mandelbrot(n).Calc(Complex(2.0, 2.0)) == Num(0.0)
    ensures n >= 2 ==> Mandelbrot(n).Calc(Complex(2.0, 2.0)) == Num(1.0 / n as real)
  {
    var c := Complex(2.0, 2.0);
    assert Orbit(Zero, c, 0) == Zero;
    assert Orbit(Zero, c, 1) == c;
    if n >= 2 {
      EscapeCountIsFirstEscape(Zero, c, n, 1);
    }
  }
}
