/**
 * The sigma-delta background estimator of sigmadelta.go.
 *
 * Every pixel carries four 8-bit values: the mean `m`, the absolute
 * deviation `o`, the dispersion `v` and the motion mask `e`. One `Update`
 * moves the mean one unit toward the observed luma, recomputes the deviation
 * from the new mean, moves the dispersion one unit toward `n` times the
 * deviation (never above 255, and never decremented below 1), and marks the
 * pixel as background (0) exactly when the deviation is below the dispersion,
 * motion (255) otherwise.
 */
module SigmaDelta {
  import opened Imaging
  import opened Wrappers

  // ---------------------------------------------------------------------
  // The per-pixel transition
  // ---------------------------------------------------------------------

  datatype Pixel = Pixel(m: Byte, o: Byte, v: Byte, e: Byte)

  /** Byte range of an integer distance. */
  function Dist(a: int, b: int): nat { Abs(a - b) }

  function Max(a: int, b: int): int { if a < b then b else a }

  /** The mean tracker: one unit toward the observed luma, without wrapping. */
  function MeanStep(m: Byte, lum: Byte): (r: Byte)
    ensures Dist(r, lum) == Max(0, Dist(m, lum) - 1)
    ensures Dist(r, m) <= 1
    ensures (m <= r <= lum) || (lum <= r <= m)
  {
    if m < lum then m + 1
    else if m > lum then m - 1
    else m
  }

  /** The deviation pass: `|m - lum|` through an `int`, then `uint8`. */
  function Deviation(m: Byte, lum: Byte): (r: Byte)
    ensures r == Dist(m, lum)
  {
    var oy := m as int - lum as int;
    Uint8(if oy <= 0 then -oy else oy)
  }

  /** The dispersion pass: one unit toward `target`, which the caller computes as `n * o` in `int`. */
  function DispersionStep(v: Byte, target: int): (r: Byte)
    ensures Dist(r, v) <= 1
    ensures Dist(r, target) <= Dist(v, target)
    ensures r > v ==> v < target
    ensures r < v ==> v > target
    ensures r == v ==> v == target || (v == 255 && target > 255) || (v <= 1 && target < v)
    ensures v >= 1 ==> r >= 1
  {
    if v < target then
      (if v < 255 then v + 1 else v)
    else if v > target then
      (if v > 1 then v - 1 else v)
    else v
  }

  /** The mask pass. */
  function MaskOf(o: Byte, v: Byte): (r: Byte)
    ensures r == 0 || r == 255
    ensures r == 0 <==> o < v
  {
    if o < v then 0 else 255
  }

  /**
   * One update of one pixel, the four passes in their order. The mask it
   * leaves is 0 or 255, and 0 exactly when the new deviation, the new
   * mean's distance from the input, is below the new dispersion.
   */
  function PixelStep(p: Pixel, lum: Byte, n: int): (r: Pixel)
    ensures r.e == 0 || r.e == 255
    ensures r.e == 0 <==> Dist(r.m, lum) < r.v
  {
    var m' := MeanStep(p.m, lum);
    var o' := Deviation(m', lum);
    var v' := DispersionStep(p.v, n * o');
    Pixel(m', o', v', MaskOf(o', v'))
  }

  /** `k` updates of one pixel with the same input luma. */
  function Iterate(p: Pixel, lum: Byte, n: int, k: nat): Pixel
    decreases k
  {
    if k == 0 then p else Iterate(PixelStep(p, lum, n), lum, n, k - 1)
  }

  // ---------------------------------------------------------------------
  // Properties of the transition
  // ---------------------------------------------------------------------

  /** The new pixel depends on the old mean, the old dispersion, the input and `n` only. */
  lemma PixelStepIsLocal(p: Pixel, q: Pixel, lum: Byte, n: int)
    requires p.m == q.m && p.v == q.v
    ensures PixelStep(p, lum, n) == PixelStep(q, lum, n)
  {
  }

  /** What one update guarantees of the four new values. */
  lemma PixelStepFacts(p: Pixel, lum: Byte, n: int)
    ensures var r := PixelStep(p, lum, n);
      && Dist(r.m, lum) == Max(0, Dist(p.m, lum) - 1)
      && r.o == Dist(r.m, lum)
      && (p.v >= 1 ==> r.v >= 1)
      && Dist(r.v, p.v) <= 1
  {
  }

  /** After `k` updates with a constant input the mean is `max(0, |m0 - lum| - k)` away from it. */
  lemma {:induction false} IterateDistance(p: Pixel, lum: Byte, n: int, k: nat)
    ensures Dist(Iterate(p, lum, n, k).m, lum) == Max(0, Dist(p.m, lum) - k)
    decreases k
  {
    if k > 0 {
      IterateDistance(PixelStep(p, lum, n), lum, n, k - 1);
    }
  }

  /** Once the mean equals the input it stays there and the deviation is zero. */
  lemma {:induction false} SettledStaysSettled(p: Pixel, lum: Byte, n: int, k: nat)
    requires p.m == lum
    ensures Iterate(p, lum, n, k).m == lum
    ensures k >= 1 ==> Iterate(p, lum, n, k).o == 0
    decreases k
  {
    if k > 0 {
      SettledStaysSettled(PixelStep(p, lum, n), lum, n, k - 1);
    }
  }

  /** Constant input: after at least `|m0 - lum|` updates (and at least one) the deviation is zero. */
  lemma MeanConverges(p: Pixel, lum: Byte, n: int, k: nat)
    requires k >= Dist(p.m, lum) && k >= 1
    ensures Iterate(p, lum, n, k).m == lum
    ensures Iterate(p, lum, n, k).o == 0
  {
    var d := Dist(p.m, lum);
    IterateDistance(p, lum, n, d);
    IterateSplit(p, lum, n, d, k - d);
    var q := Iterate(p, lum, n, d);
    SettledStaysSettled(q, lum, n, k - d);
    if k - d == 0 {
      IterateSplit(p, lum, n, k - 1, 1);
      IterateDistance(p, lum, n, k - 1);
    }
  }

  lemma {:induction false} IterateSplit(p: Pixel, lum: Byte, n: int, a: nat, b: nat)
    ensures Iterate(p, lum, n, a + b) == Iterate(Iterate(p, lum, n, a), lum, n, b)
    decreases a
  {
    if a > 0 {
      IterateSplit(PixelStep(p, lum, n), lum, n, a - 1, b);
    }
  }

  /** A settled pixel whose dispersion is at least 1 is background on every later update. */
  lemma {:induction false} SettledIsBackground(p: Pixel, lum: Byte, n: int, k: nat)
    requires p.m == lum && p.v >= 1
    ensures Iterate(p, lum, n, k).v >= 1
    ensures k >= 1 ==> Iterate(p, lum, n, k).e == 0
    decreases k
  {
    if k > 0 {
      SettledIsBackground(PixelStep(p, lum, n), lum, n, k - 1);
    }
  }

  /**
   * A pixel whose mean is at most one unit from the input and whose
   * dispersion is 0 is motion on every later update: the floor of 1 only
   * stops decrements, and a zero deviation never raises a zero dispersion.
   */
  lemma {:induction false} SettledAtZeroIsMotion(p: Pixel, lum: Byte, n: int, k: nat)
    requires Dist(p.m, lum) <= 1 && p.v == 0
    ensures Iterate(p, lum, n, k).v == 0
    ensures k >= 1 ==> Iterate(p, lum, n, k) == Pixel(lum, 0, 0, 255)
    decreases k
  {
    if k > 0 {
      SettledAtZeroStep(p, lum, n);
      SettledAtZeroIsMotion(PixelStep(p, lum, n), lum, n, k - 1);
    }
  }

  lemma SettledAtZeroStep(p: Pixel, lum: Byte, n: int)
    requires Dist(p.m, lum) <= 1 && p.v == 0
    ensures PixelStep(p, lum, n) == Pixel(lum, 0, 0, 255)
  {
    assert MeanStep(p.m, lum) == lum;
    assert n * 0 == 0;
  }

  /**
   * A freshly zeroed pixel under constant luma `lum` with gain `n >= 1`:
   * if the input is at least 2 away from the initial mean it becomes
   * background once the mean has arrived; if it is exactly 1 away the
   * dispersion never leaves 0 and the pixel stays motion forever.
   */
  lemma FreshPixelUnderConstantInput(lum: Byte, n: int, k: nat)
    requires n >= 1 && k >= lum && k >= 1
    ensures lum >= 2 ==> Iterate(Pixel(0, 0, 0, 0), lum, n, k).e == 0
    ensures lum <= 1 ==> Iterate(Pixel(0, 0, 0, 0), lum, n, k).e == 255
  {
    if lum >= 2 {
      FreshPixelBecomesBackground(lum, n, k);
    } else {
      SettledAtZeroIsMotion(Pixel(0, 0, 0, 0), lum, n, k);
    }
  }

  lemma FreshPixelBecomesBackground(lum: Byte, n: int, k: nat)
    requires n >= 1 && k >= lum >= 2
    ensures Iterate(Pixel(0, 0, 0, 0), lum, n, k).e == 0
  {
    FirstStepFromZero(lum, n);
    BackgroundOnceArrived(Pixel(0, 0, 0, 0), lum, n, k);
  }

  /** A pixel whose first update leaves a positive dispersion is background once its mean has arrived. */
  lemma BackgroundOnceArrived(p: Pixel, lum: Byte, n: int, k: nat)
    requires k >= Dist(p.m, lum) && k >= 1 && PixelStep(p, lum, n).v >= 1
    ensures Iterate(p, lum, n, k).e == 0
  {
    var q := PixelStep(p, lum, n);
    IterateFirst(p, lum, n, k);
    IterateMask(p, lum, n, k);
    StaysPositive(q, lum, n, k - 1);
    MeanConverges(p, lum, n, k);
  }

  lemma IterateFirst(p: Pixel, lum: Byte, n: int, k: nat)
    requires k >= 1
    ensures Iterate(p, lum, n, k) == Iterate(PixelStep(p, lum, n), lum, n, k - 1)
  {
  }

  /** After at least one update the mask is background exactly when the deviation is below the dispersion. */
  lemma IterateMask(p: Pixel, lum: Byte, n: int, k: nat)
    requires k >= 1
    ensures var r := Iterate(p, lum, n, k); r.e == 0 <==> r.o < r.v
  {
    IterateSplit(p, lum, n, k - 1, 1);
  }

  /** The first update of a zeroed pixel: the dispersion becomes 1 only when the input is at least 2. */
  lemma FirstStepFromZero(lum: Byte, n: int)
    requires n >= 1
    ensures lum >= 2 ==> PixelStep(Pixel(0, 0, 0, 0), lum, n).v == 1
    ensures lum <= 1 ==> PixelStep(Pixel(0, 0, 0, 0), lum, n) == Pixel(lum, 0, 0, 255)
  {
    var m' := MeanStep(0, lum);
    var o' := Deviation(m', lum);
    if lum >= 2 {
      assert m' == 1 && o' == lum - 1;
      MulAtLeast(n, o');
      assert DispersionStep(0, n * o') == 1;
    } else {
      assert m' == lum && o' == 0;
      assert n * o' == 0;
      assert DispersionStep(0, n * o') == 0;
    }
  }

  lemma MulAtLeast(n: int, o: int)
    requires n >= 1 && o >= 1
    ensures n * o >= o
  {
  }

  /** A dispersion of at least 1 stays at least 1 under a constant input. */
  lemma {:induction false} StaysPositive(p: Pixel, lum: Byte, n: int, k: nat)
    requires p.v >= 1
    ensures Iterate(p, lum, n, k).v >= 1
    decreases k
  {
    if k > 0 {
      StaysPositive(PixelStep(p, lum, n), lum, n, k - 1);
    }
  }

  /** A step change at least two units larger than the dispersion is detected at once. */
  lemma StepChangeDetected(p: Pixel, lum: Byte, n: int)
    requires Dist(p.m, lum) >= p.v + 2
    ensures PixelStep(p, lum, n).e == 255
  {
  }

  /** The scenario of a pixel with constant luma 100, a zero mean and gain 2. */
  lemma HundredUpdatesScenario()
    ensures Iterate(Pixel(0, 0, 0, 0), 100, 2, 100) == Pixel(100, 0, Iterate(Pixel(0, 0, 0, 0), 100, 2, 100).v, 0)
  {
    MeanConverges(Pixel(0, 0, 0, 0), 100, 2, 100);
    FreshPixelUnderConstantInput(100, 2, 100);
  }

  // ---------------------------------------------------------------------
  // The estimator over four planes
  // ---------------------------------------------------------------------

  /**
   * The estimator of sigmadelta.go: the gain `n`, the rectangle `bounds` and
   * the four planes. Each plane stands for an `*image.Gray` over `bounds`:
   * a `Dx x Dy` array whose element `[x, y]` is the pixel at
   * `(bounds.minX + x, bounds.minY + y)`.
   */
  class Estimator {
    const n: int
    const bounds: Rect
    const m: array2<Byte>
    const o: array2<Byte>
    const v: array2<Byte>
    const e: array2<Byte>

    predicate Shaped(a: array2<Byte>)
    {
      bounds.WellFormed() && a.Length0 == bounds.Dx() && a.Length1 == bounds.Dy()
    }

    ghost predicate Valid()
    {
      && bounds.WellFormed()
      && Shaped(m) && Shaped(o) && Shaped(v) && Shaped(e)
      && m != o && m != v && m != e && o != v && o != e && v != e
    }

    /** The four values of one pixel, by offset from `bounds.Min`. */
    ghost function PixelAt(x: nat, y: nat): Pixel
      requires Valid() && x < bounds.Dx() && y < bounds.Dy()
      reads m, o, v, e
    {
      Pixel(m[x, y], o[x, y], v[x, y], e[x, y])
    }

    /** The input luma that the pixel at offset `(x, y)` reads. */
    function Luma(img: YCbCr, x: int, y: int): Byte
      requires img.Valid()
    {
      img.LumaAt(bounds.minX + x, bounds.minY + y)
    }

    /** `newSigmaDelta`: four zero-filled planes over `bounds`. */
    constructor (n: int, bounds: Rect)
      requires bounds.WellFormed()
      ensures Valid() && this.n == n && this.bounds == bounds
      ensures fresh(m) && fresh(o) && fresh(v) && fresh(e)
      ensures forall x: nat, y: nat :: x < bounds.Dx() && y < bounds.Dy() ==> PixelAt(x, y) == Pixel(0, 0, 0, 0)
    {
      this.n := n;
      this.bounds := bounds;
      m := new Byte[bounds.Dx(), bounds.Dy()]((_, _) => 0);
      o := new Byte[bounds.Dx(), bounds.Dy()]((_, _) => 0);
      v := new Byte[bounds.Dx(), bounds.Dy()]((_, _) => 0);
      e := new Byte[bounds.Dx(), bounds.Dy()]((_, _) => 0);
    }

    /** `Gray.GrayAt`: a point outside the rectangle reads as zero. */
    function GrayAt(a: array2<Byte>, x: int, y: int): (r: Byte)
      requires Shaped(a)
      reads a
      ensures !bounds.Contains(x, y) ==> r == 0
      ensures bounds.Contains(x, y) ==> r == a[x - bounds.minX, y - bounds.minY]
    {
      if bounds.Contains(x, y) then a[x - bounds.minX, y - bounds.minY] else 0
    }

    /** `Gray.SetGray`: a point outside the rectangle is ignored. */
    method SetGray(a: array2<Byte>, x: int, y: int, c: Byte)
      requires Shaped(a)
      modifies a
      ensures forall p, q :: 0 <= p < a.Length0 && 0 <= q < a.Length1 ==>
        a[p, q] == if p == x - bounds.minX && q == y - bounds.minY then c else old(a[p, q])
    {
      if bounds.Contains(x, y) {
        a[x - bounds.minX, y - bounds.minY] := c;
      }
    }

    /** The mean pass: every pixel's mean takes one unit step toward its input luma. */
    method UpdateMean(img: YCbCr)
      requires Valid() && img.Valid()
      modifies m
      ensures forall x, y :: 0 <= x < m.Length0 && 0 <= y < m.Length1 ==>
        m[x, y] == MeanStep(old(m[x, y]), Luma(img, x, y))
    {
      var i := bounds.minX;
      while i <= bounds.maxX
        invariant bounds.minX <= i <= bounds.maxX + 1
        invariant forall x, y :: 0 <= x < m.Length0 && 0 <= y < m.Length1 ==>
          m[x, y] == if bounds.minX + x < i then MeanStep(old(m[x, y]), Luma(img, x, y)) else old(m[x, y])
      {
        var j := bounds.minY;
        while j <= bounds.maxY
          invariant bounds.minY <= j <= bounds.maxY + 1
          invariant forall x, y :: 0 <= x < m.Length0 && 0 <= y < m.Length1 ==>
            m[x, y] == if bounds.minX + x < i || (bounds.minX + x == i && bounds.minY + y < j)
                       then MeanStep(old(m[x, y]), Luma(img, x, y)) else old(m[x, y])
        {
          var inx := img.LumaAt(i, j);
          var mx := GrayAt(m, i, j);
          if mx < inx {
            SetGray(m, i, j, mx + 1);
          } else if mx > inx {
            SetGray(m, i, j, mx - 1);
          }
          j := j + 1;
        }
        i := i + 1;
      }
    }

    /** The deviation pass: every pixel's deviation is the distance of its (new) mean from its input luma. */
    method UpdateDeviation(img: YCbCr)
      requires Valid() && img.Valid()
      modifies o
      ensures forall x, y :: 0 <= x < o.Length0 && 0 <= y < o.Length1 ==>
        o[x, y] == Deviation(m[x, y], Luma(img, x, y))
    {
      var i := bounds.minX;
      while i <= bounds.maxX
        invariant bounds.minX <= i <= bounds.maxX + 1
        invariant forall x, y :: 0 <= x < o.Length0 && 0 <= y < o.Length1 ==>
          o[x, y] == if bounds.minX + x < i then Deviation(m[x, y], Luma(img, x, y)) else old(o[x, y])
      {
        var j := bounds.minY;
        while j <= bounds.maxY
          invariant bounds.minY <= j <= bounds.maxY + 1
          invariant forall x, y :: 0 <= x < o.Length0 && 0 <= y < o.Length1 ==>
            o[x, y] == if bounds.minX + x < i || (bounds.minX + x == i && bounds.minY + y < j)
                       then Deviation(m[x, y], Luma(img, x, y)) else old(o[x, y])
        {
          var inx := img.LumaAt(i, j);
          var mx := GrayAt(m, i, j);
          var oy := mx as int - inx as int;
          if oy <= 0 {
            oy := oy * -1;
          }
          SetGray(o, i, j, Uint8(oy));
          j := j + 1;
        }
        i := i + 1;
      }
    }

    /** The dispersion pass: every pixel's dispersion takes one clamped step toward `n` times its deviation. */
    method UpdateDispersion()
      requires Valid()
      modifies v
      ensures forall x, y :: 0 <= x < v.Length0 && 0 <= y < v.Length1 ==>
        v[x, y] == DispersionStep(old(v[x, y]), n * o[x, y])
    {
      var i := bounds.minX;
      while i <= bounds.maxX
        invariant bounds.minX <= i <= bounds.maxX + 1
        invariant forall x, y :: 0 <= x < v.Length0 && 0 <= y < v.Length1 ==>
          v[x, y] == if bounds.minX + x < i then DispersionStep(old(v[x, y]), n * o[x, y]) else old(v[x, y])
      {
        var j := bounds.minY;
        while j <= bounds.maxY
          invariant bounds.minY <= j <= bounds.maxY + 1
          invariant forall x, y :: 0 <= x < v.Length0 && 0 <= y < v.Length1 ==>
            v[x, y] == if bounds.minX + x < i || (bounds.minX + x == i && bounds.minY + y < j)
                       then DispersionStep(old(v[x, y]), n * o[x, y]) else old(v[x, y])
        {
          var ox := GrayAt(o, i, j);
          var vx := GrayAt(v, i, j);
          var target := n * ox;
          if vx < target {
            if vx < 255 {
              SetGray(v, i, j, vx + 1);
            }
          } else if vx > target {
            if vx > 1 {
              SetGray(v, i, j, vx - 1);
            }
          }
          j := j + 1;
        }
        i := i + 1;
      }
    }

    /** The mask pass: background (0) exactly where the deviation is below the dispersion. */
    method UpdateMask()
      requires Valid()
      modifies e
      ensures forall x, y :: 0 <= x < e.Length0 && 0 <= y < e.Length1 ==>
        e[x, y] == MaskOf(o[x, y], v[x, y])
    {
      var i := bounds.minX;
      while i <= bounds.maxX
        invariant bounds.minX <= i <= bounds.maxX + 1
        invariant forall x, y :: 0 <= x < e.Length0 && 0 <= y < e.Length1 ==>
          e[x, y] == if bounds.minX + x < i then MaskOf(o[x, y], v[x, y]) else old(e[x, y])
      {
        var j := bounds.minY;
        while j <= bounds.maxY
          invariant bounds.minY <= j <= bounds.maxY + 1
          invariant forall x, y :: 0 <= x < e.Length0 && 0 <= y < e.Length1 ==>
            e[x, y] == if bounds.minX + x < i || (bounds.minX + x == i && bounds.minY + y < j)
                       then MaskOf(o[x, y], v[x, y]) else old(e[x, y])
        {
          var ox := GrayAt(o, i, j);
          var vx := GrayAt(v, i, j);
          if ox < vx {
            SetGray(e, i, j, 0);
          } else {
            SetGray(e, i, j, 255);
          }
          j := j + 1;
        }
        i := i + 1;
      }
    }

    /**
     * `Update`: the four passes in order. Every pixel inside `bounds` takes
     * exactly one `PixelStep` on its own input luma; nothing else changes
     * (the planes are the only state written; `n`, `bounds` and the input
     * are values), and the error result is always nil.
     */
    method Update(img: YCbCr) returns (err: Option<string>)
      requires Valid() && img.Valid()
      modifies m, o, v, e
      ensures err == None
      ensures forall x: nat, y: nat :: x < bounds.Dx() && y < bounds.Dy() ==>
        PixelAt(x, y) == PixelStep(old(PixelAt(x, y)), Luma(img, x, y), n)
      ensures forall x: nat, y: nat :: x < bounds.Dx() && y < bounds.Dy() ==>
        (e[x, y] == 0 || e[x, y] == 255) && Dist(m[x, y], Luma(img, x, y)) == o[x, y]
    {
      UpdateMean(img);
      UpdateDeviation(img);
      UpdateDispersion();
      UpdateMask();
      err := None;
    }
  }
}
