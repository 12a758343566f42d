/**
  The crop-offset expression that index.js hands to ffmpeg's crop filter: a
  list of clauses `if(guard, st(0, value))`, one per recorded crop, followed
  by `ld(0)`. Each clause stores its value in slot 0 when its guard holds at
  the current frame number `n`; the expression yields whatever slot 0 holds
  after the last clause.
 */
module CropExpression {
  import opened Wrappers

  /** The sampling interval: every `F`-th frame was analysed. */
  type Interval = f: int | f >= 1 witness 1

  /** `eq(n,k)`, `between(n,lo,hi)` and `gte(n,k)`. */
  datatype Guard = Eq(k: int) | Between(lo: int, hi: int) | Gte(k: int)

  /**
    A constant offset, or `lerp(a,b,(mod(n-1,period)+1)/period)`: the offset
    moves from `a` towards `b` as `n` advances through an interval.
   */
  datatype Value = Const(c: int) | Lerp(a: int, b: int, period: Interval)

  datatype Clause = Clause(guard: Guard, value: Value)

  /** Why no expression can be built. */
  datatype SynthError = EmptyTimeline

  predicate Holds(g: Guard, n: int)
  {
    match g
    case Eq(k) => n == k
    case Between(lo, hi) => lo <= n <= hi
    case Gte(k) => n >= k
  }

  /**
    The fraction `(mod(n-1,F)+1)/F`. ffmpeg's `mod` rounds the quotient down,
    which for a positive divisor is Dafny's `%`.
   */
  function Fraction(n: int, period: Interval): (t: real)
    ensures 0.0 < t <= 1.0
  {
    var k := (n - 1) % period + 1;
    assert 1 <= k <= period;
    FractionBounds(k, period);
    k as real / period as real
  }

  lemma FractionBounds(k: int, p: int)
    requires 1 <= k <= p
    ensures 0.0 < k as real / p as real <= 1.0
  {
    var t := k as real / p as real;
    assert t * p as real == k as real;
    assert (1.0 - t) * p as real >= 0.0;
  }

  /** ffmpeg's `lerp(x, y, z)`: `x + (y - x) * z`, in exact arithmetic. */
  function Interpolate(a: real, b: real, t: real): (r: real)
    ensures 0.0 <= t <= 1.0 && a <= b ==> a <= r <= b
    ensures 0.0 <= t <= 1.0 && b <= a ==> b <= r <= a
    ensures t == 1.0 ==> r == b
    ensures t == 0.0 ==> r == a
  {
    var r := a + (b - a) * t;
    LerpBounds(a, b, t, r);
    r
  }

  /** For t in [0, 1], `a + (b - a) * t` lies between a and b. */
  lemma LerpBounds(a: real, b: real, t: real, r: real)
    requires r == a + (b - a) * t
    ensures 0.0 <= t <= 1.0 && a <= b ==> a <= r <= b
    ensures 0.0 <= t <= 1.0 && b <= a ==> b <= r <= a
  {
    if 0.0 <= t <= 1.0 {
      var span := if a <= b then b - a else a - b;
      var u := 1.0 - t;
      assert span * t >= 0.0;
      assert span * u >= 0.0;
      assert r == b - (b - a) * u;
    }
  }

  /** The value a clause stores at frame `n`. */
  function ValueAt(v: Value, n: int): (r: real)
  {
    match v
    case Const(c) => c as real
    case Lerp(a, b, p) => Interpolate(a as real, b as real, Fraction(n, p))
  }

  /** Slot 0 after one clause `if(guard, st(0, value))`. */
  function Step(c: Clause, n: int, slot: real): (r: real)
  {
    if Holds(c.guard, n) then ValueAt(c.value, n) else slot
  }

  /**
    Slot 0 after all the clauses, in order: what `ld(0)` yields at frame `n`.
    The last clause whose guard holds wins.
   */
  function Eval(cs: seq<Clause>, n: int, slot: real): (r: real)
    ensures cs != [] && Holds(cs[|cs| - 1].guard, n) ==> r == ValueAt(cs[|cs| - 1].value, n)
    decreases |cs|
  {
    if cs == [] then slot
    else
      assert |cs| > 1 ==> cs[1..][|cs| - 2] == cs[|cs| - 1];
      Eval(cs[1..], n, Step(cs[0], n, slot))
  }

  /**
    The offset at frame `n` of the video. Slot 0 starts at zero and keeps its
    value from one frame to the next, so a frame no guard covers reuses the
    offset of the frame before it.
   */
  function OffsetAt(cs: seq<Clause>, n: nat): (r: real)
  {
    Eval(cs, n, if n == 0 then 0.0 else OffsetAt(cs, n - 1))
  }

  /** When no guard holds, the clauses leave the slot alone. */
  lemma {:induction false} EvalNoGuard(cs: seq<Clause>, n: int, slot: real)
    requires forall i :: 0 <= i < |cs| ==> !Holds(cs[i].guard, n)
    ensures Eval(cs, n, slot) == slot
    decreases |cs|
  {
    if cs != [] {
      assert !Holds(cs[0].guard, n);
      EvalNoGuard(cs[1..], n, slot);
    }
  }

  /**
    The clauses yield the value of the last clause whose guard holds,
    whatever the slot held and whatever the clauses before it stored.
   */
  lemma {:induction false} EvalLastHolding(cs: seq<Clause>, n: int, slot: real, k: nat)
    requires k < |cs| && Holds(cs[k].guard, n)
    requires forall j :: k < j < |cs| ==> !Holds(cs[j].guard, n)
    ensures Eval(cs, n, slot) == ValueAt(cs[k].value, n)
    decreases |cs|
  {
    if k == 0 {
      forall j | 0 <= j < |cs[1..]|
        ensures !Holds(cs[1..][j].guard, n)
      {
        assert cs[1..][j] == cs[j + 1];
      }
      EvalNoGuard(cs[1..], n, ValueAt(cs[0].value, n));
    } else {
      forall j | k - 1 < j < |cs[1..]|
        ensures !Holds(cs[1..][j].guard, n)
      {
        assert cs[1..][j] == cs[j + 1];
      }
      assert cs[1..][k - 1] == cs[k];
      EvalLastHolding(cs[1..], n, Step(cs[0], n, slot), k - 1);
    }
  }

  /** When exactly one guard holds, the clauses yield its value, whatever the slot held. */
  lemma {:induction false} EvalOneGuard(cs: seq<Clause>, n: int, slot: real, k: nat)
    requires k < |cs| && Holds(cs[k].guard, n)
    requires forall i :: 0 <= i < |cs| && i != k ==> !Holds(cs[i].guard, n)
    ensures Eval(cs, n, slot) == ValueAt(cs[k].value, n)
    decreases |cs|
  {
    if k == 0 {
      forall i | 0 <= i < |cs[1..]|
        ensures !Holds(cs[1..][i].guard, n)
      {
        assert cs[1..][i] == cs[i + 1];
      }
      EvalNoGuard(cs[1..], n, ValueAt(cs[0].value, n));
    } else {
      assert !Holds(cs[0].guard, n);
      assert cs[1..][k - 1] == cs[k];
      forall i | 0 <= i < |cs[1..]| && i != k - 1
        ensures !Holds(cs[1..][i].guard, n)
      {
        assert cs[1..][i] == cs[i + 1];
      }
      EvalOneGuard(cs[1..], n, slot, k - 1);
    }
  }

  /** Euclidean division by a positive divisor is determined by its defining bounds. */
  lemma DivUnique(n: int, f: Interval, q: int)
    requires q * f <= n < q * f + f
    ensures n / f == q && n % f == n - q * f
  {
    var q' := n / f;
    assert q' * f <= n < q' * f + f;
    if q' < q {
      MulMonotone(q' + 1, q, f);
      assert false;
    } else if q' > q {
      MulMonotone(q + 1, q', f);
      assert false;
    }
  }

  /** A multiple of `f` below `n` bounds the quotient from below. */
  lemma DivLower(n: int, f: Interval, m: int)
    requires m * f <= n
    ensures m <= n / f
  {
    var q := n / f;
    if q < m {
      MulMonotone(q + 1, m, f);
    }
  }

  /** `m` lies in the j-th block of `f` exactly when its quotient is j. */
  lemma QuotientIs(m: int, f: Interval, j: int)
    ensures j * f <= m < j * f + f <==> m / f == j
  {
    if j * f <= m < j * f + f {
      DivUnique(m, f, j);
    }
  }

  /** `m` lies at or past the j-th block of `f` exactly when its quotient is at least j. */
  lemma QuotientAtLeast(m: int, f: Interval, j: int)
    ensures m >= j * f <==> m / f >= j
  {
    if m >= j * f {
      DivLower(m, f, j);
    }
    if m / f >= j {
      MulMonotone(j, m / f, f);
    }
  }

  lemma MulMonotone(a: int, b: int, f: int)
    requires a <= b && f >= 0
    ensures a * f <= b * f
  {
    assert (b - a) * f >= 0;
  }

  function Min(a: int, b: int): int
  {
    if a <= b then a else b
  }

  // ---------------------------------------------------------------------
  // Piecewise-constant mode: clause i holds the offset of crop i over the
  // frames iF .. iF+F-1, and the last one from its first frame on.
  // ---------------------------------------------------------------------

  function PiecewiseClause(xs: seq<int>, f: Interval, i: nat): (c: Clause)
    requires i < |xs|
    ensures c.value == Const(xs[i])
    ensures forall n :: Holds(c.guard, n) <==> i * f <= n && (i < |xs| - 1 ==> n < (i + 1) * f)
  {
    Clause(if i == |xs| - 1 then Gte(i * f) else Between(i * f, i * f + f - 1), Const(xs[i]))
  }

  function PiecewiseClauses(xs: seq<int>, f: Interval): (cs: seq<Clause>)
    ensures |cs| == |xs|
    ensures forall i :: 0 <= i < |xs| ==> cs[i] == PiecewiseClause(xs, f, i)
  {
    seq(|xs|, i requires 0 <= i < |xs| => PiecewiseClause(xs, f, i))
  }

  /** The sample whose offset frame `n` shows in piecewise mode. */
  function PiecewiseOwner(count: nat, f: Interval, n: nat): nat
    requires count >= 1
  {
    Min(n / f, count - 1)
  }

  /** The guards partition the frames: clause i holds at frame n exactly when i is its owner. */
  lemma PiecewiseGuards(xs: seq<int>, f: Interval, n: nat, i: nat)
    requires i < |xs|
    ensures Holds(PiecewiseClause(xs, f, i).guard, n) <==> i == PiecewiseOwner(|xs|, f, n)
  {
    var last := |xs| - 1;
    if i < last {
      QuotientIs(n, f, i);
    } else {
      QuotientAtLeast(n, f, last);
    }
  }

  /** Piecewise mode yields the offset of crop `min(n div F, last)`, whatever the slot held. */
  lemma PiecewiseEval(xs: seq<int>, f: Interval, n: nat, slot: real)
    requires |xs| >= 1
    ensures Eval(PiecewiseClauses(xs, f), n, slot) == xs[PiecewiseOwner(|xs|, f, n)] as real
  {
    var cs := PiecewiseClauses(xs, f);
    var k := PiecewiseOwner(|xs|, f, n);
    forall i | 0 <= i < |cs|
      ensures Holds(cs[i].guard, n) <==> i == k
    {
      PiecewiseGuards(xs, f, n, i);
    }
    EvalOneGuard(cs, n, slot, k);
  }

  /** With no crops, no clause is emitted and every frame is cut at offset 0. */
  lemma {:induction false} PiecewiseEmpty(f: Interval, n: nat)
    ensures OffsetAt(PiecewiseClauses([], f), n) == 0.0
  {
    assert PiecewiseClauses([], f) == [];
    if n > 0 {
      PiecewiseEmpty(f, n - 1);
    }
  }

  // ---------------------------------------------------------------------
  // Interpolating mode: frame 0 shows crop 0; for i >= 1 the frames
  // (i-1)F+1 .. iF move from crop i-1 to crop i; the last clause is
  // unbounded above.
  // ---------------------------------------------------------------------

  function LerpClause(xs: seq<int>, f: Interval, i: nat): (c: Clause)
    requires i < |xs|
    ensures i == 0 ==> c.value == Const(xs[0]) && forall n :: Holds(c.guard, n) <==> n == 0
    ensures i > 0 ==> c.value == Lerp(xs[i - 1], xs[i], f)
    ensures i > 0 ==> forall n :: Holds(c.guard, n) <==> (i - 1) * f < n && (i < |xs| - 1 ==> n <= i * f)
  {
    if i == 0 then Clause(Eq(0), Const(xs[0]))
    else
      var start := (i - 1) * f;
      Clause(if i == |xs| - 1 then Gte(start + 1) else Between(start + 1, start + f),
             Lerp(xs[i - 1], xs[i], f))
  }

  function LerpClauses(xs: seq<int>, f: Interval): (cs: seq<Clause>)
    ensures |cs| == |xs|
    ensures forall i :: 0 <= i < |xs| ==> cs[i] == LerpClause(xs, f, i)
  {
    seq(|xs|, i requires 0 <= i < |xs| => LerpClause(xs, f, i))
  }

  /** The clause whose guard covers frame `n` in interpolating mode. */
  function LerpOwner(count: nat, f: Interval, n: nat): nat
    requires count >= 2
  {
    if n == 0 then 0 else Min((n - 1) / f + 1, count - 1)
  }

  /** With two crops or more, the guards partition the frames. */
  lemma LerpGuards(xs: seq<int>, f: Interval, n: nat, i: nat)
    requires 2 <= |xs| && i < |xs|
    ensures Holds(LerpClause(xs, f, i).guard, n) <==> i == LerpOwner(|xs|, f, n)
  {
    var last := |xs| - 1;
    if i > 0 {
      MulMonotone(0, i - 1, f);
      if n > 0 {
        if i < last {
          QuotientIs(n - 1, f, i - 1);
        } else {
          QuotientAtLeast(n - 1, f, last - 1);
        }
      }
    }
  }

  /**
    With two crops or more, frame 0 shows crop 0 and every later frame the
    interpolation between the two crops around it, whatever the slot held.
   */
  lemma LerpEval(xs: seq<int>, f: Interval, n: nat, slot: real)
    requires |xs| >= 2
    ensures var i := LerpOwner(|xs|, f, n);
            Eval(LerpClauses(xs, f), n, slot) ==
              if n == 0 then xs[0] as real
              else Interpolate(xs[i - 1] as real, xs[i] as real, Fraction(n, f))
  {
    var cs := LerpClauses(xs, f);
    var k := LerpOwner(|xs|, f, n);
    forall i | 0 <= i < |cs|
      ensures Holds(cs[i].guard, n) <==> i == k
    {
      LerpGuards(xs, f, n, i);
    }
    EvalOneGuard(cs, n, slot, k);
  }

  /** At the frame where sample i was taken the fraction is exactly 1. */
  lemma FractionAtSample(f: Interval, i: int)
    requires i >= 1
    ensures Fraction(i * f, f) == 1.0
  {
    DivUnique(i * f - 1, f, i - 1);
  }

  /** The interpolation passes through every sample: frame iF shows crop i. */
  lemma LerpHitsSamples(xs: seq<int>, f: Interval, i: nat, slot: real)
    requires |xs| >= 2 && i < |xs|
    ensures Eval(LerpClauses(xs, f), i * f, slot) == xs[i] as real
  {
    LerpEval(xs, f, i * f, slot);
    if i > 0 {
      SampleOwner(|xs|, f, i);
    }
  }

  /** Frame iF belongs to clause i, and its fraction is 1. */
  lemma SampleOwner(count: nat, f: Interval, i: nat)
    requires count >= 2 && 1 <= i < count
    ensures i * f >= 1 && LerpOwner(count, f, i * f) == i && Fraction(i * f, f) == 1.0
  {
    MulMonotone(1, i, f);
    DivUnique(i * f - 1, f, i - 1);
    FractionAtSample(f, i);
  }

  /** Between two samples the offset stays between the two crops' offsets. */
  lemma LerpStaysBetween(xs: seq<int>, f: Interval, n: nat, slot: real)
    requires |xs| >= 2 && n >= 1
    ensures var i := LerpOwner(|xs|, f, n);
            var v := Eval(LerpClauses(xs, f), n, slot);
            && (xs[i - 1] <= xs[i] ==> xs[i - 1] as real <= v <= xs[i] as real)
            && (xs[i] <= xs[i - 1] ==> xs[i] as real <= v <= xs[i - 1] as real)
  {
    LerpEval(xs, f, n, slot);
  }

  /**
    With a single crop only the `eq(n,0)` clause is emitted: frame 0 stores
    its offset, and as slot 0 is never overwritten again every frame shows it.
   */
  lemma {:induction false} LerpSingleCrop(xs: seq<int>, f: Interval, n: nat)
    requires |xs| == 1
    ensures OffsetAt(LerpClauses(xs, f), n) == xs[0] as real
  {
    var cs := LerpClauses(xs, f);
    assert cs[0] == Clause(Eq(0), Const(xs[0]));
    if n == 0 {
      EvalOneGuard(cs, 0, 0.0, 0);
    } else {
      LerpSingleCrop(xs, f, n - 1);
      EvalNoGuard(cs, n, OffsetAt(cs, n - 1));
    }
  }

  /**
    Past the last sample the last clause keeps interpolating with a fraction
    that starts over every F frames: the offset repeats with period F.
   */
  lemma LerpTailRepeats(xs: seq<int>, f: Interval, n: nat, slot: real)
    requires |xs| >= 2 && n > (|xs| - 1) * f
    ensures Eval(LerpClauses(xs, f), n, slot) == Eval(LerpClauses(xs, f), n - f, slot)
  {
    TailPeriod(|xs|, f, n);
    LerpEval(xs, f, n, slot);
    LerpEval(xs, f, n - f, slot);
  }

  /** Past the last sample, frames F apart have the same owner and the same fraction. */
  lemma TailPeriod(count: nat, f: Interval, n: nat)
    requires count >= 2 && n > (count - 1) * f
    ensures n - f >= 1
    ensures LerpOwner(count, f, n) == count - 1 == LerpOwner(count, f, n - f)
    ensures Fraction(n, f) == Fraction(n - f, f)
  {
    var last := count - 1;
    MulMonotone(1, last, f);
    DivLower(n - 1, f, last);
    MulPred(last, f);
    DivLower(n - 1 - f, f, last - 1);
    ModShift(n - 1, f);
  }

  /** Taking one divisor away lowers the quotient by one and keeps the remainder. */
  lemma ModShift(m: int, f: Interval)
    requires m >= f
    ensures (m - f) / f == m / f - 1 && (m - f) % f == m % f
  {
    var q := m / f;
    MulPred(q, f);
    DivUnique(m - f, f, q - 1);
  }

  lemma MulPred(a: int, f: int)
    ensures (a - 1) * f == a * f - f
  {
  }

  /** Two crops 0 and 10 sampled every 2 frames: frame 2 shows 10, but frame 3 falls back to 5. */
  lemma LerpTailFallsBack(slot: real)
    ensures Eval(LerpClauses([0, 10], 2), 2, slot) == 10.0
    ensures Eval(LerpClauses([0, 10], 2), 3, slot) == 5.0
  {
    LerpHitsSamples([0, 10], 2, 1, slot);
    LerpEval([0, 10], 2, 3, slot);
    DivUnique(2, 2, 1);
  }

  /**
    The wrap shows whenever the sampling interval is at least 2 and the last
    two crops differ: the frame after the last sample does not show the last
    crop.
   */
  lemma LerpTailLeavesLast(xs: seq<int>, f: Interval, slot: real)
    requires |xs| >= 2 && f >= 2 && xs[|xs| - 2] != xs[|xs| - 1]
    ensures Eval(LerpClauses(xs, f), (|xs| - 1) * f + 1, slot) != xs[|xs| - 1] as real
  {
    var last := |xs| - 1;
    var n := last * f + 1;
    TailPeriod(|xs|, f, n);
    LerpEval(xs, f, n, slot);
    DivUnique(n - 1, f, last);
    assert Fraction(n, f) == 1.0 / f as real;
    InterpolateShort(xs[last - 1] as real, xs[last] as real, 1.0 / f as real);
  }

  /** A fraction below 1 stops short of the second offset when the two differ. */
  lemma InterpolateShort(a: real, b: real, t: real)
    requires a != b && t < 1.0
    ensures Interpolate(a, b, t) != b
  {
    var w, u := b - a, t - 1.0;
    assert Interpolate(a, b, t) - b == w * u;
    assert (w * u) / w == u;
  }

  /** With an interval of 1 the fraction is always 1, so the tail holds the last crop. */
  lemma LerpTailUnitInterval(xs: seq<int>, n: nat, slot: real)
    requires |xs| >= 2 && n >= |xs| - 1
    ensures Eval(LerpClauses(xs, 1), n, slot) == xs[|xs| - 1] as real
  {
    LerpEval(xs, 1, n, slot);
    assert LerpOwner(|xs|, 1, n) == |xs| - 1;
    assert Fraction(n, 1) == 1.0;
  }

  /** When the last two crops are equal (the last sample found no face), the tail holds the last crop. */
  lemma LerpTailEqualEnds(xs: seq<int>, f: Interval, n: nat, slot: real)
    requires |xs| >= 2 && xs[|xs| - 2] == xs[|xs| - 1] && n > (|xs| - 1) * f
    ensures Eval(LerpClauses(xs, f), n, slot) == xs[|xs| - 1] as real
  {
    TailPeriod(|xs|, f, n);
    LerpEval(xs, f, n, slot);
  }

  /**
    Interpolating clauses that hold the last crop once it is reached: every
    interval is bounded, and a final clause stores the last offset from the
    frame after the last sample on.
   */
  function HeldLerpClause(xs: seq<int>, f: Interval, i: nat): Clause
    requires i <= |xs| && |xs| >= 1
  {
    if i == 0 then Clause(Eq(0), Const(xs[0]))
    else if i == |xs| then Clause(Gte((|xs| - 1) * f + 1), Const(xs[|xs| - 1]))
    else
      var start := (i - 1) * f;
      Clause(Between(start + 1, start + f), Lerp(xs[i - 1], xs[i], f))
  }

  function HeldLerpClauses(xs: seq<int>, f: Interval): (cs: seq<Clause>)
    requires |xs| >= 1
    ensures |cs| == |xs| + 1
  {
    seq(|xs| + 1, i requires 0 <= i <= |xs| => HeldLerpClause(xs, f, i))
  }

  /** The clause of HeldLerpClauses whose guard covers frame `n`. */
  function HeldOwner(count: nat, f: Interval, n: nat): nat
    requires count >= 1
  {
    if n == 0 then 0 else Min((n - 1) / f + 1, count)
  }

  lemma HeldGuards(xs: seq<int>, f: Interval, n: nat, i: nat)
    requires 1 <= |xs| && i <= |xs|
    ensures Holds(HeldLerpClause(xs, f, i).guard, n) <==> i == HeldOwner(|xs|, f, n)
  {
    var count := |xs|;
    if i > 0 {
      MulMonotone(0, i - 1, f);
      if n > 0 {
        if i < count {
          QuotientIs(n - 1, f, i - 1);
        } else {
          QuotientAtLeast(n - 1, f, count - 1);
        }
      }
    }
  }

  /**
    The corrected clauses agree with the clauses as written up to the last
    sample, and show the last crop on every frame after it.
   */
  lemma HeldLerpEval(xs: seq<int>, f: Interval, n: nat, slot: real)
    requires |xs| >= 2
    ensures n <= (|xs| - 1) * f ==> Eval(HeldLerpClauses(xs, f), n, slot) == Eval(LerpClauses(xs, f), n, slot)
    ensures n >= (|xs| - 1) * f ==> Eval(HeldLerpClauses(xs, f), n, slot) == xs[|xs| - 1] as real
  {
    var cs := HeldLerpClauses(xs, f);
    var k := HeldOwner(|xs|, f, n);
    var last := |xs| - 1;
    forall i | 0 <= i < |cs|
      ensures Holds(cs[i].guard, n) <==> i == k
    {
      HeldGuards(xs, f, n, i);
    }
    EvalOneGuard(cs, n, slot, k);
    LerpEval(xs, f, n, slot);
    if n == last * f {
      LerpHitsSamples(xs, f, last, slot);
    }
    if n > 0 {
      var q := (n - 1) / f;
      if n <= last * f {
        if q + 1 > last {
          MulMonotone(last, q, f);
        }
        assert k == LerpOwner(|xs|, f, n);
      } else {
        if q + 1 < |xs| {
          MulMonotone(q + 1, last, f);
        }
        assert k == |xs|;
      }
    }
  }

  // ---------------------------------------------------------------------
  // Synthesis of the clause list from the crops' offsets.
  // ---------------------------------------------------------------------

  /**
    The clause list built from the crops' x offsets `xs`. Interpolating mode
    reads the first crop unconditionally and fails on an empty timeline;
    piecewise mode emits nothing for it.
   */
  function FrameValues(xs: seq<int>, f: Interval, interpolate: bool): (r: Result<seq<Clause>, SynthError>)
    ensures r.Err? <==> interpolate && xs == []
    ensures r.Ok? ==> |r.value| == |xs|
  {
    if !interpolate then Ok(PiecewiseClauses(xs, f))
    else if xs == [] then Err(EmptyTimeline)
    else Ok(LerpClauses(xs, f))
  }

  /** The two `for` loops that push the clauses one by one. */
  method BuildFrameValues(xs: seq<int>, f: Interval, interpolate: bool)
    returns (r: Result<seq<Clause>, SynthError>)
    ensures r == FrameValues(xs, f, interpolate)
  {
    var values: seq<Clause> := [];
    if interpolate {
      if |xs| == 0 {
        return Err(EmptyTimeline);
      }
      values := values + [Clause(Eq(0), Const(xs[0]))];
      var i := 1;
      while i < |xs|
        invariant 1 <= i <= |xs|
        invariant values == LerpClauses(xs, f)[..i]
      {
        var start := (i - 1) * f;
        var guard := if i == |xs| - 1 then Gte(start + 1) else Between(start + 1, start + f);
        values := values + [Clause(guard, Lerp(xs[i - 1], xs[i], f))];
        i := i + 1;
      }
      assert values == LerpClauses(xs, f);
    } else {
      var i := 0;
      while i < |xs|
        invariant 0 <= i <= |xs|
        invariant values == PiecewiseClauses(xs, f)[..i]
      {
        var start := i * f;
        var guard := if i == |xs| - 1 then Gte(start) else Between(start, start + f - 1);
        values := values + [Clause(guard, Const(xs[i]))];
        i := i + 1;
      }
      assert values == PiecewiseClauses(xs, f);
    }
    return Ok(values);
  }
}
