/**
 * The two-layer perceptron and its static overflow bound: `crates/chronos-core/src/mlp.rs`.
 * An encrypted 64-bit integer is modelled by its plaintext with wrapping arithmetic.
 */
module Mlp {
  import opened Words
  import NumberTheory

  const HALF_64: int := 0x8000_0000_0000_0000
  const HALF_128: int := 0x8000_0000_0000_0000_0000_0000_0000_0000

  /** Two's complement wrap into `[-half, half)`. */
  function Wrap(x: int, half: int): (w: int)
    requires half > 0
    ensures -half <= w < half
    ensures -half <= x < half ==> w == x
  {
    WrapFacts(x, half);
    (x + half) % (2 * half) - half
  }

  lemma WrapFacts(x: int, half: int)
    requires half > 0
    ensures 0 <= (x + half) % (2 * half) < 2 * half
    ensures -half <= x < half ==> (x + half) % (2 * half) == x + half
  {
    if -half <= x < half { NumberTheory.ModUnique(x + half, 2 * half, 0, x + half); }
  }

  lemma WrapShifts(x: int, half: int) returns (k: int)
    requires half > 0
    ensures Wrap(x, half) == x + k * (2 * half)
  {
    var m := 2 * half;
    k := -((x + half) / m);
    assert x + half == (x + half) / m * m + (x + half) % m;
    assert k * m == -((x + half) / m * m);
  }

  /** Wrapping the operands first does not change a wrapped sum. */
  lemma WrapSum(x: int, y: int, half: int)
    requires half > 0
    ensures Wrap(Wrap(x, half) + Wrap(y, half), half) == Wrap(x + y, half)
  {
    var j := WrapShifts(x, half);
    var k := WrapShifts(y, half);
    var m := 2 * half;
    assert j * m + k * m == (j + k) * m;
    NumberTheory.ModShift(x + y + half, j + k, m);
  }

  /** Encrypted addition and multiplication by a clear scalar: both wrap. */
  function WrapAdd(a: int, b: int): i64 {
    Wrap(a + b, HALF_64)
  }

  function WrapMul(a: int, b: int): i64 {
    Wrap(a * b, HALF_64)
  }

  predicate Fits(x: int, half: int) {
    -half <= x < half
  }

  function Relu(x: int): int {
    Max(x, 0)
  }

  // ── Dot products ─────────────────────────────────────────────────────────

  /** The exact value of `sum w_i x_i`. */
  function Dot(ws: seq<int>, xs: seq<int>): int
    requires |ws| == |xs|
  {
    if ws == [] then 0 else Dot(ws[..|ws| - 1], xs[..|xs| - 1]) + ws[|ws| - 1] * xs[|xs| - 1]
  }

  /** `sum |w_i| m`: what the sum can reach when every input is at most `m` in magnitude. */
  function AbsDot(ws: seq<int>, m: nat): nat {
    if ws == [] then 0 else AbsDot(ws[..|ws| - 1], m) + Abs(ws[|ws| - 1]) * m
  }

  predicate Bounded(xs: seq<int>, m: nat) {
    forall i :: 0 <= i < |xs| ==> Abs(xs[i]) <= m
  }

  lemma ProductBound(w: int, x: int, m: nat)
    requires Abs(x) <= m
    ensures -(Abs(w) * m) <= w * x <= Abs(w) * m
  {
    var p := Abs(w) * Abs(x);
    assert p <= Abs(w) * m;
    assert w * x == p || w * x == -p;
  }

  lemma {:induction false} DotBound(ws: seq<int>, xs: seq<int>, m: nat)
    requires |ws| == |xs| && Bounded(xs, m)
    ensures Abs(Dot(ws, xs)) <= AbsDot(ws, m)
  {
    if ws != [] {
      var k := |ws| - 1;
      DotBound(ws[..k], xs[..k], m);
      ProductBound(ws[k], xs[k], m);
    }
  }

  /** The inputs that follow the signs of the weights. */
  function WorstInputs(ws: seq<int>, m: nat): (xs: seq<int>)
    ensures |xs| == |ws| && forall i :: 0 <= i < |ws| ==> xs[i] == if ws[i] >= 0 then m else 0 - m
  {
    if ws == [] then []
    else WorstInputs(ws[..|ws| - 1], m) + [if ws[|ws| - 1] >= 0 then m else 0 - m]
  }

  /** The bound is attained within the declared magnitude, so no smaller one is sound. */
  lemma {:induction false} AbsDotAttained(ws: seq<int>, m: nat)
    ensures Bounded(WorstInputs(ws, m), m) && Dot(ws, WorstInputs(ws, m)) == AbsDot(ws, m)
  {
    if ws != [] {
      var k := |ws| - 1;
      AbsDotAttained(ws[..k], m);
      assert WorstInputs(ws, m)[..k] == WorstInputs(ws[..k], m);
      SignedProduct(ws[k], m);
    }
  }

  lemma SignedProduct(w: int, m: nat)
    ensures w * (if w >= 0 then m else 0 - m) == Abs(w) * m
  {
    assert w * (0 - m) == (0 - w) * m;
  }

  lemma {:induction false} AbsDotPrefix(ws: seq<int>, m: nat, k: nat)
    requires k <= |ws|
    ensures AbsDot(ws[..k], m) <= AbsDot(ws, m)
  {
    if k < |ws| {
      AbsDotPrefix(ws[..|ws| - 1], m, k);
      assert ws[..|ws| - 1][..k] == ws[..k];
    } else {
      assert ws[..k] == ws;
    }
  }

  lemma AbsDotStep(ws: seq<int>, m: nat, k: nat)
    requires k < |ws|
    ensures AbsDot(ws[..k + 1], m) == AbsDot(ws[..k], m) + Abs(ws[k]) * m
  {
    assert ws[..k + 1][..k] == ws[..k];
  }

  lemma DotStep(ws: seq<int>, xs: seq<int>, k: nat)
    requires k < |ws| == |xs|
    ensures Dot(ws[..k + 1], xs[..k + 1]) == Dot(ws[..k], xs[..k]) + ws[k] * xs[k]
  {
    assert ws[..k + 1][..k] == ws[..k] && xs[..k + 1][..k] == xs[..k];
  }

  /** Moving one input moves the product by its weight times the move; with no inputs set it is 0. */
  lemma {:induction false} DotMoves(ws: seq<int>, xs: seq<int>, k: nat, v: int)
    requires k < |ws| == |xs|
    ensures Dot(ws, xs[k := v]) == Dot(ws, xs) + ws[k] * (v - xs[k])
  {
    var n := |ws| - 1;
    var ys := xs[k := v];
    if k == n {
      assert ys[..n] == xs[..n];
      Distributes(ws[n], v, xs[n]);
    } else {
      DotMoves(ws[..n], xs[..n], k, v);
      assert ys[..n] == xs[..n][k := v];
    }
  }

  lemma Distributes(w: int, v: int, x: int)
    ensures w * v == w * x + w * (v - x)
  {
  }

  lemma {:induction false} DotZero(ws: seq<int>, xs: seq<int>)
    requires |ws| == |xs| && forall i :: 0 <= i < |xs| ==> xs[i] == 0
    ensures Dot(ws, xs) == 0
  {
    if ws != [] { DotZero(ws[..|ws| - 1], xs[..|xs| - 1]); }
  }

  datatype FheError = LengthMismatch | EmptyInput | NoHidden | NoOutputs | HiddenBias | OutputBias
                    | HiddenShape | OutputShape | CanOverflow | InputShape

  /** No term and no partial sum of the product leaves the width, with or without the bias. */
  ghost predicate NeverWraps(ws: seq<int>, xs: seq<int>, bias: int, half: int)
    requires |ws| == |xs|
  {
    && (forall k :: 0 <= k < |ws| ==> Fits(ws[k] * xs[k], half))
    && (forall k :: 0 <= k <= |ws| ==> Fits(Dot(ws[..k], xs[..k]), half))
    && Fits(Dot(ws, xs) + bias, half)
  }

  /** A bound that fits the width rules out wrapping at every step, in the order of the code. */
  lemma BoundPreventsWrap(ws: seq<int>, xs: seq<int>, bias: int, m: nat, half: int)
    requires |ws| == |xs| && Bounded(xs, m) && AbsDot(ws, m) + Abs(bias) < half
    ensures NeverWraps(ws, xs, bias, half)
  {
    forall k | 0 <= k < |ws| ensures Fits(ws[k] * xs[k], half) {
      AbsDotStep(ws, m, k);
      AbsDotPrefix(ws, m, k + 1);
      ProductBound(ws[k], xs[k], m);
    }
    forall k | 0 <= k <= |ws| ensures Fits(Dot(ws[..k], xs[..k]), half) {
      AbsDotPrefix(ws, m, k);
      DotBound(ws[..k], xs[..k], m);
    }
    DotBound(ws, xs, m);
  }

  /**
   * `dot_product`: seeded with the first term, every operation wrapping. Whatever overflows on
   * the way, the result is the exact value wrapped once; so it is exact when that value fits.
   */
  method DotProduct(xs: seq<i64>, ws: seq<i64>, bias: i64) returns (r: Result<i64, FheError>)
    ensures |xs| != |ws| ==> r == Err(LengthMismatch)
    ensures |xs| == |ws| == 0 ==> r == Err(EmptyInput)
    ensures |xs| == |ws| > 0 ==> r == Ok(Wrap(Dot(ws, xs) + bias, HALF_64))
  {
    if |xs| != |ws| { return Err(LengthMismatch); }
    if |xs| == 0 { return Err(EmptyInput); }
    var acc: i64 := WrapMul(ws[0], xs[0]);
    DotStep(ws, xs, 0);
    for i := 1 to |xs|
      invariant acc == Wrap(Dot(ws[..i], xs[..i]), HALF_64)
    {
      DotStep(ws, xs, i);
      var w: int, x: int := ws[i], xs[i];
      WrapSum(Dot(ws[..i], xs[..i]), w * x, HALF_64);
      acc := WrapAdd(acc, WrapMul(ws[i], xs[i]));
    }
    assert ws[..|ws|] == ws && xs[..|xs|] == xs;
    WrapSum(Dot(ws, xs), bias, HALF_64);
    return Ok(WrapAdd(acc, bias));
  }

  // ── The model and its bound ──────────────────────────────────────────────

  datatype Weights = Weights(
    hiddenWeights: seq<seq<i64>>, hiddenBias: seq<i64>, outputWeights: seq<seq<i64>>, outputBias: seq<i64>)

  /** Worst magnitude of one layer; a row without a bias is not looked at. */
  function LayerBound(rows: seq<seq<int>>, bias: seq<int>, m: nat): nat
    decreases |rows|
  {
    var n := Min(|rows|, |bias|);
    if n == 0 then 0
    else Max(LayerBound(rows[..n - 1], bias[..n - 1], m), Abs(bias[n - 1]) + AbsDot(rows[n - 1], m))
  }

  /** The bound in unbounded integers. */
  function ExactBound(w: Weights, inputAbsMax: i64): nat {
    var h := LayerBound(w.hiddenWeights, w.hiddenBias, Abs(inputAbsMax));
    Max(h, LayerBound(w.outputWeights, w.outputBias, h))
  }

  lemma {:induction false} RowWithin(rows: seq<seq<int>>, bias: seq<int>, m: nat, k: nat)
    requires k < |rows| && k < |bias|
    ensures Abs(bias[k]) + AbsDot(rows[k], m) <= LayerBound(rows, bias, m)
    decreases |rows|
  {
    var n := Min(|rows|, |bias|);
    if k < n - 1 {
      RowWithin(rows[..n - 1], bias[..n - 1], m, k);
    }
  }

  function Opposite(xs: seq<int>): (ys: seq<int>)
    ensures |ys| == |xs| && forall i :: 0 <= i < |xs| ==> ys[i] == 0 - xs[i]
  {
    seq(|xs|, i requires 0 <= i < |xs| => 0 - xs[i])
  }

  lemma {:induction false} DotOpposite(ws: seq<int>, xs: seq<int>)
    requires |ws| == |xs|
    ensures Dot(ws, Opposite(xs)) == 0 - Dot(ws, xs)
  {
    if ws != [] {
      var k := |ws| - 1;
      DotOpposite(ws[..k], xs[..k]);
      assert Opposite(xs)[..k] == Opposite(xs[..k]);
      assert ws[k] * (0 - xs[k]) == 0 - ws[k] * xs[k];
    }
  }

  /** Inputs within the magnitude on which this unit reaches this value, up to its sign. */
  ghost predicate Reaches(ws: seq<int>, bias: int, m: nat, value: int) {
    exists xs :: |xs| == |ws| && Bounded(xs, m) && Abs(Dot(ws, xs) + bias) == value
  }

  lemma RowReaches(ws: seq<int>, bias: int, m: nat)
    ensures Reaches(ws, bias, m, Abs(bias) + AbsDot(ws, m))
  {
    var xs := WorstInputs(ws, m);
    AbsDotAttained(ws, m);
    DotOpposite(ws, xs);
    var ys := if bias >= 0 then xs else Opposite(xs);
    assert Bounded(ys, m) && Abs(Dot(ws, ys) + bias) == Abs(bias) + AbsDot(ws, m);
  }

  /** The layer's bound is no larger than it must be: some unit reaches it on inputs within the magnitude. */
  lemma {:induction false} LayerBoundReached(rows: seq<seq<int>>, bias: seq<int>, m: nat)
    requires |rows| > 0 && |bias| > 0
    ensures exists k :: 0 <= k < |rows| && k < |bias| && Reaches(rows[k], bias[k], m, LayerBound(rows, bias, m))
    decreases |rows|
  {
    var n := Min(|rows|, |bias|);
    RowReaches(rows[n - 1], bias[n - 1], m);
    if n > 1 {
      LayerBoundReached(rows[..n - 1], bias[..n - 1], m);
      var k :| 0 <= k < n - 1 && Reaches(rows[..n - 1][k], bias[..n - 1][k], m, LayerBound(rows[..n - 1], bias[..n - 1], m));
      assert Reaches(rows[k], bias[k], m, LayerBound(rows[..n - 1], bias[..n - 1], m));
    }
  }

  lemma LayerStep(rows: seq<seq<int>>, bias: seq<int>, m: nat, k: nat)
    requires k < |rows| && k < |bias|
    ensures LayerBound(rows[..k + 1], bias[..k + 1], m)
         == Max(LayerBound(rows[..k], bias[..k], m), Abs(bias[k]) + AbsDot(rows[k], m))
  {
    assert rows[..k + 1][..k] == rows[..k] && bias[..k + 1][..k] == bias[..k];
  }

  lemma LayerCut(rows: seq<seq<int>>, bias: seq<int>, m: nat)
    ensures var n := Min(|rows|, |bias|); LayerBound(rows[..n], bias[..n], m) == LayerBound(rows, bias, m)
  {
    var n := Min(|rows|, |bias|);
    if n > 0 {
      assert rows[..n][..n - 1] == rows[..n - 1] && bias[..n][..n - 1] == bias[..n - 1];
    }
  }

  /** `i128::checked_add` and `checked_mul` on non-negative operands. */
  function Checked(x: nat): Option<nat> {
    if x < HALF_128 then Some(x) else None
  }

  /** One row of the bound: None as soon as an `i128` operation overflows. */
  method RowBound(ws: seq<i64>, bias: i64, m: nat) returns (acc: Option<nat>)
    ensures acc.Some? ==> acc.value == Abs(bias) + AbsDot(ws, m)
    ensures acc.None? ==> Abs(bias) + AbsDot(ws, m) > I64_MAX
  {
    var sum: nat := Abs(bias);
    for i := 0 to |ws|
      invariant sum == Abs(bias) + AbsDot(ws[..i], m)
    {
      AbsDotStep(ws, m, i);
      AbsDotPrefix(ws, m, i + 1);
      var term := Checked(Abs(ws[i]) * m);
      if term.None? { return None; }
      var next := Checked(sum + term.value);
      if next.None? { return None; }
      sum := next.value;
    }
    assert ws[..|ws|] == ws;
    return Some(sum);
  }

  method WorstRow(rows: seq<seq<i64>>, bias: seq<i64>, m: nat) returns (worst: Option<nat>)
    ensures worst.Some? ==> worst.value == LayerBound(rows, bias, m)
    ensures worst.None? ==> LayerBound(rows, bias, m) > I64_MAX
  {
    var most: nat := 0;
    var n := if |rows| <= |bias| then |rows| else |bias|;
    for i := 0 to n
      invariant most == LayerBound(rows[..i], bias[..i], m)
    {
      LayerStep(rows, bias, m, i);
      var acc := RowBound(rows[i], bias[i], m);
      if acc.None? {
        RowWithin(rows, bias, m, i);
        return None;
      }
      most := Max(most, acc.value);
    }
    LayerCut(rows, bias, m);
    return Some(most);
  }

  /** `max_intermediate_magnitude`: Some exactly when the bound fits `i64`, and then the bound. */
  method MaxIntermediateMagnitude(w: Weights, inputAbsMax: i64) returns (r: Option<nat>)
    ensures r == if ExactBound(w, inputAbsMax) <= I64_MAX then Some(ExactBound(w, inputAbsMax)) else None
  {
    var hidden := WorstRow(w.hiddenWeights, w.hiddenBias, Abs(inputAbsMax));
    if hidden.None? { return None; }
    var output := WorstRow(w.outputWeights, w.outputBias, hidden.value);
    if output.None? { return None; }
    var worst := Max(hidden.value, output.value);
    return if worst > I64_MAX then None else Some(worst);
  }

  predicate Shaped(w: Weights, inputDim: nat) {
    && w.hiddenWeights != [] && w.outputWeights != []
    && |w.hiddenWeights| == |w.hiddenBias| && |w.outputWeights| == |w.outputBias|
    && (forall j :: 0 <= j < |w.hiddenWeights| ==> |w.hiddenWeights[j]| == inputDim)
    && (forall k :: 0 <= k < |w.outputWeights| ==> |w.outputWeights[k]| == |w.hiddenWeights|)
  }

  /** `validate`, naming the first problem found. */
  method Validate(w: Weights, inputDim: nat, inputAbsMax: i64) returns (r: Result<(), FheError>)
    ensures r.Ok? <==> Shaped(w, inputDim) && ExactBound(w, inputAbsMax) <= I64_MAX
    ensures r == Err(CanOverflow) <==> Shaped(w, inputDim) && ExactBound(w, inputAbsMax) > I64_MAX
    ensures r == Err(NoHidden) <==> w.hiddenWeights == []
    ensures r == Err(NoOutputs) <==> w.hiddenWeights != [] && w.outputWeights == []
    ensures r == Err(HiddenBias) <==>
              w.hiddenWeights != [] && w.outputWeights != [] && |w.hiddenWeights| != |w.hiddenBias|
    ensures r == Err(OutputBias) <==>
              w.hiddenWeights != [] && w.outputWeights != [] && |w.hiddenWeights| == |w.hiddenBias|
              && |w.outputWeights| != |w.outputBias|
    ensures r == Err(OutputShape) ==> forall j :: 0 <= j < |w.hiddenWeights| ==> |w.hiddenWeights[j]| == inputDim
  {
    if w.hiddenWeights == [] { return Err(NoHidden); }
    if w.outputWeights == [] { return Err(NoOutputs); }
    if |w.hiddenWeights| != |w.hiddenBias| { return Err(HiddenBias); }
    if |w.outputWeights| != |w.outputBias| { return Err(OutputBias); }
    for j := 0 to |w.hiddenWeights|
      invariant forall i :: 0 <= i < j ==> |w.hiddenWeights[i]| == inputDim
    {
      if |w.hiddenWeights[j]| != inputDim { return Err(HiddenShape); }
    }
    for k := 0 to |w.outputWeights|
      invariant forall i :: 0 <= i < k ==> |w.outputWeights[i]| == |w.hiddenWeights|
    {
      if |w.outputWeights[k]| != |w.hiddenWeights| { return Err(OutputShape); }
    }
    var bound := MaxIntermediateMagnitude(w, inputAbsMax);
    return if bound.None? then Err(CanOverflow) else Ok(());
  }

  // ── Evaluation ───────────────────────────────────────────────────────────

  /** The exact hidden activations. */
  function Hidden(w: Weights, xs: seq<int>): (h: seq<int>)
    requires Shaped(w, |xs|)
    ensures |h| == |w.hiddenWeights|
  {
    seq(|w.hiddenWeights|, j requires 0 <= j < |w.hiddenWeights| =>
      Relu(Dot(w.hiddenWeights[j], xs) + w.hiddenBias[j]))
  }

  /** The exact network function. */
  function Network(w: Weights, xs: seq<int>): (y: seq<int>)
    requires Shaped(w, |xs|)
    ensures |y| == |w.outputWeights|
  {
    Outputs(w, Hidden(w, xs))
  }

  ghost predicate HiddenExact(w: Weights, xs: seq<int>, half: int)
    requires Shaped(w, |xs|)
  {
    forall j :: 0 <= j < |w.hiddenWeights| ==> NeverWraps(w.hiddenWeights[j], xs, w.hiddenBias[j], half)
  }

  ghost predicate OutputExact(w: Weights, hidden: seq<int>, half: int)
    requires OutputShaped(w, hidden)
  {
    forall k :: 0 <= k < |w.outputWeights| ==> NeverWraps(w.outputWeights[k], hidden, w.outputBias[k], half)
  }

  predicate OutputShaped(w: Weights, hidden: seq<int>) {
    |w.outputWeights| == |w.outputBias|
    && forall k :: 0 <= k < |w.outputWeights| ==> |w.outputWeights[k]| == |hidden|
  }

  /** The exact outputs for given activations. */
  function Outputs(w: Weights, hidden: seq<int>): (y: seq<int>)
    requires OutputShaped(w, hidden)
    ensures |y| == |w.outputWeights|
  {
    seq(|w.outputWeights|, k requires 0 <= k < |w.outputWeights| =>
      Dot(w.outputWeights[k], hidden) + w.outputBias[k])
  }

  /** Activations of the hidden units: non-negative, at least the exact sum, and one of the two. */
  predicate Rectified(w: Weights, xs: seq<int>, h: seq<int>)
    requires Shaped(w, |xs|)
  {
    |h| == |w.hiddenWeights|
    && forall j :: 0 <= j < |h| ==> RectifiedAt(h[j], Dot(w.hiddenWeights[j], xs) + w.hiddenBias[j])
  }

  predicate RectifiedAt(h: int, z: int) {
    h >= 0 && h >= z && (h == 0 || h == z)
  }

  /** The outputs are the exact sums over rectified activations, and determined by that. */
  ghost predicate RectifiedNetwork(w: Weights, xs: seq<int>, y: seq<int>)
    requires Shaped(w, |xs|)
  {
    exists h: seq<int> :: Rectified(w, xs, h) && |y| == |w.outputWeights|
      && forall k :: 0 <= k < |y| ==> y[k] == Dot(w.outputWeights[k], h) + w.outputBias[k]
  }

  lemma NetworkRectifies(w: Weights, xs: seq<int>)
    requires Shaped(w, |xs|)
    ensures RectifiedNetwork(w, xs, Network(w, xs))
  {
    var h := Hidden(w, xs);
    assert Rectified(w, xs, h);
    var y := Network(w, xs);
    assert forall k :: 0 <= k < |y| ==> y[k] == Dot(w.outputWeights[k], h) + w.outputBias[k];
  }

  lemma RectifiedUnique(w: Weights, xs: seq<int>, h: seq<int>, h': seq<int>)
    requires Shaped(w, |xs|) && Rectified(w, xs, h) && Rectified(w, xs, h')
    ensures h == h'
  {
    forall j | 0 <= j < |h| ensures h[j] == h'[j] {
      var z := Dot(w.hiddenWeights[j], xs) + w.hiddenBias[j];
      assert RectifiedAt(h[j], z) && RectifiedAt(h'[j], z);
    }
  }

  /** A model within its bound: nothing wraps in either layer, at either width. */
  lemma NothingWraps(w: Weights, xs: seq<i64>, inputAbsMax: i64, half: int)
    requires Shaped(w, |xs|) && ExactBound(w, inputAbsMax) < half && Bounded(xs, Abs(inputAbsMax))
    ensures HiddenExact(w, xs, half) && OutputExact(w, Hidden(w, xs), half)
  {
    var m := Abs(inputAbsMax);
    var h := LayerBound(w.hiddenWeights, w.hiddenBias, m);
    var hidden := Hidden(w, xs);
    forall j | 0 <= j < |w.hiddenWeights|
      ensures NeverWraps(w.hiddenWeights[j], xs, w.hiddenBias[j], half) && Abs(hidden[j]) <= h
    {
      RowWithin(w.hiddenWeights, w.hiddenBias, m, j);
      BoundPreventsWrap(w.hiddenWeights[j], xs, w.hiddenBias[j], m, half);
      DotBound(w.hiddenWeights[j], xs, m);
    }
    assert Bounded(hidden, h);
    forall k | 0 <= k < |w.outputWeights|
      ensures NeverWraps(w.outputWeights[k], hidden, w.outputBias[k], half)
    {
      RowWithin(w.outputWeights, w.outputBias, h, k);
      BoundPreventsWrap(w.outputWeights[k], hidden, w.outputBias[k], h, half);
    }
  }

  /** The hidden layer as the code evaluates it. */
  method HiddenLayer(w: Weights, xs: seq<i64>) returns (r: Result<seq<i64>, FheError>)
    requires Shaped(w, |xs|)
    ensures r.Ok? <==> xs != []
    ensures r.Err? ==> r.error == EmptyInput
    ensures r.Ok? ==> |r.value| == |w.hiddenWeights|
    ensures r.Ok? && HiddenExact(w, xs, HALF_64) ==> r.value == Hidden(w, xs)
  {
    ghost var exact := HiddenExact(w, xs, HALF_64);
    var hidden: seq<i64> := [];
    for j := 0 to |w.hiddenWeights|
      invariant |hidden| == j && (j > 0 ==> xs != [])
      invariant exact ==> forall i :: 0 <= i < j ==> hidden[i] == Hidden(w, xs)[i]
    {
      var z := DotProduct(xs, w.hiddenWeights[j], w.hiddenBias[j]);
      if z.Err? { return Err(z.error); }
      hidden := hidden + [Relu(z.value)];
    }
    return Ok(hidden);
  }

  /** The output layer on the given activations. */
  method OutputLayer(w: Weights, hidden: seq<i64>) returns (outputs: seq<i64>)
    requires OutputShaped(w, hidden) && hidden != []
    ensures |outputs| == |w.outputWeights|
    ensures OutputExact(w, hidden, HALF_64) ==> outputs == Outputs(w, hidden)
  {
    ghost var exact := OutputExact(w, hidden, HALF_64);
    outputs := [];
    for k := 0 to |w.outputWeights|
      invariant |outputs| == k
      invariant exact ==> forall i :: 0 <= i < k ==> outputs[i] == Outputs(w, hidden)[i]
    {
      var z := DotProduct(hidden, w.outputWeights[k], w.outputBias[k]);
      outputs := outputs + [z.value];
    }
  }

  /**
   * `evaluate` over wrapping 64-bit integers: for inputs within the declared magnitude it
   * returns the exact network function, and it fails exactly when the model is refused or
   * there is no input.
   */
  method Evaluate(w: Weights, xs: seq<i64>, inputAbsMax: i64) returns (r: Result<seq<i64>, FheError>)
    ensures r.Ok? <==> Shaped(w, |xs|) && ExactBound(w, inputAbsMax) <= I64_MAX && xs != []
    ensures r.Ok? && Bounded(xs, Abs(inputAbsMax)) ==> r.value == Network(w, xs) && RectifiedNetwork(w, xs, r.value)
    ensures Shaped(w, |xs|) && ExactBound(w, inputAbsMax) <= I64_MAX && xs == [] ==> r == Err(EmptyInput)
  {
    var valid := Validate(w, |xs|, inputAbsMax);
    if valid.Err? { return Err(valid.error); }
    NetworkRectifies(w, xs);
    if Bounded(xs, Abs(inputAbsMax)) { NothingWraps(w, xs, inputAbsMax, HALF_64); }
    var hidden := HiddenLayer(w, xs);
    if hidden.Err? { return Err(hidden.error); }
    var outputs := OutputLayer(w, hidden.value);
    return Ok(outputs);
  }

  /** One hidden unit and one output unit over no inputs at all. */
  function NoInputs(): Weights {
    Weights([[]], [0], [[0]], [0])
  }

  /** Such a model passes validation for every declared magnitude, and evaluating it fails. */
  method NoInputsAccepted(inputAbsMax: i64) returns (valid: Result<(), FheError>, r: Result<seq<i64>, FheError>)
    ensures valid.Ok? && r == Err(EmptyInput)
  {
    assert NoInputs().hiddenWeights[..0] == [] && NoInputs().outputWeights[..0] == [];
    NoInputsBound(Abs(inputAbsMax));
    valid := Validate(NoInputs(), 0, inputAbsMax);
    r := Evaluate(NoInputs(), [], inputAbsMax);
  }

  lemma NoInputsBound(m: nat)
    ensures LayerBound(NoInputs().hiddenWeights, NoInputs().hiddenBias, m) == 0
    ensures LayerBound(NoInputs().outputWeights, NoInputs().outputBias, 0) == 0
  {
    assert AbsDot([], m) == 0 && AbsDot([0], 0) == 0;
  }

  // ── The plaintext reference ──────────────────────────────────────────────

  /** The dot product over the positions both vectors have, as a zip leaves them. */
  function ZipDot(ws: seq<int>, xs: seq<int>): int {
    var n := Min(|ws|, |xs|);
    Dot(ws[..n], xs[..n])
  }

  /** The wide activations: rows without a bias, and weights without an input, drop out. */
  function PlainHidden(w: Weights, xs: seq<int>): (h: seq<int>)
    ensures |h| == Min(|w.hiddenWeights|, |w.hiddenBias|)
  {
    var n := Min(|w.hiddenWeights|, |w.hiddenBias|);
    seq(n, j requires 0 <= j < n => Relu(Wrap(ZipDot(w.hiddenWeights[j], xs) + w.hiddenBias[j], HALF_128)))
  }

  function PlainOutputs(w: Weights, hidden: seq<int>): (y: seq<i64>)
    ensures |y| == Min(|w.outputWeights|, |w.outputBias|)
  {
    var n := Min(|w.outputWeights|, |w.outputBias|);
    seq(n, k requires 0 <= k < n =>
      Wrap(Wrap(ZipDot(w.outputWeights[k], hidden) + w.outputBias[k], HALF_128), HALF_64))
  }

  /** A `sum::<i128>()` over the zipped products, every operation wrapping at 128 bits. */
  method WideDot(ws: seq<int>, xs: seq<int>, bias: i64) returns (sum: int)
    ensures sum == Wrap(ZipDot(ws, xs) + bias, HALF_128)
  {
    var n := if |ws| <= |xs| then |ws| else |xs|;
    sum := 0;
    ghost var us, vs := ws[..n], xs[..n];
    for i := 0 to n
      invariant sum == Wrap(Dot(us[..i], vs[..i]), HALF_128)
    {
      DotStep(us, vs, i);
      WrapSum(Dot(us[..i], vs[..i]), ws[i] * xs[i], HALF_128);
      sum := Wrap(sum + Wrap(ws[i] * xs[i], HALF_128), HALF_128);
    }
    assert us[..n] == us && vs[..n] == vs;
    WrapSum(Dot(us, vs), bias, HALF_128);
    sum := Wrap(sum + bias, HALF_128);
  }

  /** The inputs respect some magnitude for which the model's bound fits `i64`. */
  ghost predicate InRange(w: Weights, xs: seq<int>) {
    exists m: i64 :: ExactBound(w, m) <= I64_MAX && Bounded(xs, Abs(m))
  }

  /** What the wide arithmetic needs: no wrapping at either width. */
  lemma PlaintextExact(w: Weights, xs: seq<i64>)
    requires Shaped(w, |xs|) && InRange(w, xs)
    ensures HiddenExact(w, xs, HALF_128)
    ensures OutputExact(w, Hidden(w, xs), HALF_128) && OutputExact(w, Hidden(w, xs), HALF_64)
  {
    var m: i64 :| ExactBound(w, m) <= I64_MAX && Bounded(xs, Abs(m));
    NothingWraps(w, xs, m, HALF_128);
    NothingWraps(w, xs, m, HALF_64);
  }

  method WideHidden(w: Weights, xs: seq<i64>) returns (hidden: seq<int>)
    ensures hidden == PlainHidden(w, xs)
  {
    hidden := [];
    var n := if |w.hiddenWeights| <= |w.hiddenBias| then |w.hiddenWeights| else |w.hiddenBias|;
    for j := 0 to n
      invariant |hidden| == j && forall i :: 0 <= i < j ==> hidden[i] == PlainHidden(w, xs)[i]
    {
      var z := WideDot(w.hiddenWeights[j], xs, w.hiddenBias[j]);
      hidden := hidden + [Relu(z)];
    }
  }

  method WideOutput(w: Weights, hidden: seq<int>) returns (outputs: seq<i64>)
    ensures outputs == PlainOutputs(w, hidden)
  {
    outputs := [];
    var n := if |w.outputWeights| <= |w.outputBias| then |w.outputWeights| else |w.outputBias|;
    for k := 0 to n
      invariant |outputs| == k && forall i :: 0 <= i < k ==> outputs[i] == PlainOutputs(w, hidden)[i]
    {
      var z := WideDot(w.outputWeights[k], hidden, w.outputBias[k]);
      outputs := outputs + [Wrap(z, HALF_64)];
    }
  }

  function InputDim(w: Weights): nat {
    if w.hiddenWeights == [] then 0 else |w.hiddenWeights[0]|
  }

  /** Where nothing wraps, a zipped and wrapped dot product is the exact one. */
  lemma ZipDotExact(ws: seq<int>, xs: seq<int>, bias: int, half: int)
    requires half > 0 && |ws| == |xs| && NeverWraps(ws, xs, bias, half)
    ensures Wrap(ZipDot(ws, xs) + bias, half) == Dot(ws, xs) + bias
  {
    assert ws[..|ws|] == ws && xs[..|xs|] == xs;
  }

  lemma PlainHiddenExact(w: Weights, xs: seq<int>)
    requires Shaped(w, |xs|) && HiddenExact(w, xs, HALF_128)
    ensures PlainHidden(w, xs) == Hidden(w, xs)
  {
    forall j | 0 <= j < |w.hiddenWeights| ensures PlainHidden(w, xs)[j] == Hidden(w, xs)[j] {
      ZipDotExact(w.hiddenWeights[j], xs, w.hiddenBias[j], HALF_128);
    }
  }

  lemma PlainOutputsExact(w: Weights, hidden: seq<int>)
    requires OutputShaped(w, hidden) && OutputExact(w, hidden, HALF_128) && OutputExact(w, hidden, HALF_64)
    ensures PlainOutputs(w, hidden) == Outputs(w, hidden)
  {
    forall k | 0 <= k < |w.outputWeights| ensures PlainOutputs(w, hidden)[k] == Outputs(w, hidden)[k] {
      ZipDotExact(w.outputWeights[k], hidden, w.outputBias[k], HALF_128);
      assert NeverWraps(w.outputWeights[k], hidden, w.outputBias[k], HALF_64);
    }
  }

  /** Within the bound the wide arithmetic and the final truncation change nothing. */
  lemma PlainIsNetwork(w: Weights, xs: seq<i64>)
    requires Shaped(w, |xs|) && InRange(w, xs)
    ensures PlainOutputs(w, PlainHidden(w, xs)) == Network(w, xs)
  {
    PlaintextExact(w, xs);
    PlainHiddenExact(w, xs);
    PlainOutputsExact(w, Hidden(w, xs));
  }

  /**
   * `evaluate_plaintext`, for models of any shape: `i128` inside, truncated to `i64` at the end.
   * On a well-shaped model within the bound it is the exact network, so it agrees with `Evaluate`.
   */
  method EvaluatePlaintext(w: Weights, xs: seq<i64>) returns (r: Result<seq<i64>, FheError>)
    ensures r == if |xs| == InputDim(w) then Ok(PlainOutputs(w, PlainHidden(w, xs))) else Err(InputShape)
    ensures Shaped(w, |xs|) && InRange(w, xs) ==> r == Ok(Network(w, xs)) && RectifiedNetwork(w, xs, r.value)
  {
    if Shaped(w, |xs|) { NetworkRectifies(w, xs); }
    if Shaped(w, |xs|) && InRange(w, xs) { PlainIsNetwork(w, xs); }
    if |xs| != InputDim(w) { return Err(InputShape); }
    var hidden := WideHidden(w, xs);
    var outputs := WideOutput(w, hidden);
    return Ok(outputs);
  }
}
