/** The binomial-lattice valuation engine (`Option::getBinomialTreeValue`).

    The engine is generic in the exercise-value function of the contract. It
    is given twice: functionally, layer by layer (`Layer`, `TreeValue`), and
    as `getBinomialTreeValue` runs it, one buffer of N + 1 values
    overwritten in place (`Sweep`, `Buffer`, `BinomialTreeValue`). The
    per-step parameters, which `getBinomialTreeValue` computes with
    `exp`/`sqrt`, are inputs here. */
module Lattice {
  import opened Numbers

  /** Per-step parameters: the up factor (the down factor is its
      reciprocal), the risk-neutral probability p0 of an up move and the
      one-step discount factor. */
  datatype Params = Params(up: real, p0: real, disc: real) {
    predicate Valid() { up > 0.0 }

    function Down(): real
      requires Valid()
    {
      1.0 / up
    }

    /** Risk-neutral probability of a down move. */
    function P1(): real { 1.0 - p0 }

    /** p0 and p1 form a probability distribution and discounting keeps signs. */
    predicate RiskNeutral() { Valid() && 0.0 <= p0 <= 1.0 && disc > 0.0 }
  }

  /** The exercise value of a contract at a spot and a lattice time. */
  type Exercise = (Spot, Time) -> real

  /** Spot of node i of layer j: i up moves and j - i down moves from s. */
  function NodeSpot(s: Spot, lat: Params, i: nat, j: nat): Spot
    requires lat.Valid()
  {
    var f := Pow(lat.up, 2 * i - j);
    assert s * f > 0.0;
    s * f
  }

  /** An up move multiplies the spot by the up factor. */
  lemma UpMove(s: Spot, lat: Params, i: nat, j: nat)
    requires lat.Valid()
    ensures NodeSpot(s, lat, i + 1, j + 1) == NodeSpot(s, lat, i, j) * lat.up
  {
    var e := 2 * i - j;
    assert 2 * (i + 1) - (j + 1) == e + 1;
    PowSucc(lat.up, e);
    ScaleProduct(s, Pow(lat.up, e + 1), Pow(lat.up, e), lat.up);
  }

  /** A down move divides the spot by the up factor. */
  lemma DownMove(s: Spot, lat: Params, i: nat, j: nat)
    requires lat.Valid()
    ensures NodeSpot(s, lat, i, j + 1) * lat.up == NodeSpot(s, lat, i, j)
  {
    var e := 2 * i - j;
    assert 2 * i - (j + 1) == e - 1;
    PowSucc(lat.up, e - 1);
    ScaleProduct(s, Pow(lat.up, e), Pow(lat.up, e - 1), lat.up);
  }

  /** The tree recombines: from node (i, j) an up move reaches (i + 1, j + 1)
      and a down move reaches (i, j + 1), which is also reached from
      (i - 1, j) by an up move. */
  lemma Recombining(s: Spot, lat: Params, i: nat, j: nat)
    requires lat.Valid()
    ensures NodeSpot(s, lat, i + 1, j + 1) == NodeSpot(s, lat, i, j) * lat.up
    ensures NodeSpot(s, lat, i, j + 1) == NodeSpot(s, lat, i, j) * lat.Down()
  {
    UpMove(s, lat, i, j);
    DownMove(s, lat, i, j);
    DivideOut(NodeSpot(s, lat, i, j + 1), NodeSpot(s, lat, i, j), lat.up);
  }

  /** Discounted risk-neutral expectation of the two successor values. */
  function Continuation(lat: Params, upper: real, lower: real): real
  {
    (lat.p0 * upper + lat.P1() * lower) * lat.disc
  }

  /** Value of node i of layer j < n given its successors' values: the
      continuation value, raised to the exercise value when that is larger.
      It is never below either and always equals one of them. */
  function NodeValue(lat: Params, ex: Exercise, s: Spot, n: nat, j: nat, i: nat, upper: real, lower: real): (r: real)
    requires lat.Valid() && j <= n
    ensures r >= ex(NodeSpot(s, lat, i, j), Moment(j, n))
    ensures r >= Continuation(lat, upper, lower)
    ensures r == ex(NodeSpot(s, lat, i, j), Moment(j, n)) || r == Continuation(lat, upper, lower)
  {
    var exercise := ex(NodeSpot(s, lat, i, j), Moment(j, n));
    var c := Continuation(lat, upper, lower);
    if c < exercise then exercise else c
  }

  /** Layer n: the exercise value at maturity of every reachable spot. */
  function Terminal(lat: Params, ex: Exercise, s: Spot, n: nat): (r: seq<real>)
    requires lat.Valid()
    ensures |r| == n + 1
  {
    seq(n + 1, i requires 0 <= i <= n => ex(NodeSpot(s, lat, i, n), Moment(n, n)))
  }

  /** Layer j < n from layer j + 1, node by node. */
  function Step(lat: Params, ex: Exercise, s: Spot, n: nat, j: nat, next: seq<real>): (r: seq<real>)
    requires lat.Valid() && j < n && |next| == j + 2
    ensures |r| == j + 1
    ensures forall i :: 0 <= i <= j ==> r[i] == NodeValue(lat, ex, s, n, j, i, next[i + 1], next[i])
  {
    seq(j + 1, i requires 0 <= i <= j => NodeValue(lat, ex, s, n, j, i, next[i + 1], next[i]))
  }

  /** The node values of layer j: j + 1 of them, none below the exercise
      value of its node. */
  function Layer(lat: Params, ex: Exercise, s: Spot, n: nat, j: nat): (r: seq<real>)
    requires lat.Valid() && j <= n
    ensures |r| == j + 1
    ensures forall i :: 0 <= i <= j ==> r[i] >= ex(NodeSpot(s, lat, i, j), Moment(j, n))
    decreases n - j
  {
    if j == n then
      Terminal(lat, ex, s, n)
    else
      Step(lat, ex, s, n, j, Layer(lat, ex, s, n, j + 1))
  }

  /** The lattice value of the contract: the single node of layer 0. It is
      never below immediate exercise at the root, and a lattice of depth 0
      is just the exercise value at maturity. */
  function TreeValue(lat: Params, ex: Exercise, s: Spot, n: nat): (v: real)
    requires lat.Valid()
    ensures v >= ex(s, Moment(0, n))
    ensures n == 0 ==> v == ex(s, Moment(0, 0))
  {
    assert NodeSpot(s, lat, 0, 0) == s;
    Layer(lat, ex, s, n, 0)[0]
  }

  /** The spot reached from s by `ups` up moves after `downs` down moves:
      each up move multiplies the spot by u and each down move by d = 1/u. */
  function SpotAfterMoves(s: Spot, lat: Params, ups: nat, downs: nat): Spot
    requires lat.Valid()
  {
    var f := MovePower(lat.up, ups, downs);
    SignUnderPositiveScale(s, f);
    s * f
  }

  /** Node i of layer j is the spot reached by j - i down moves and i up
      moves, so the closed form u^(2i - j) counts the moves of a path. */
  lemma NodeSpotByMoves(s: Spot, lat: Params, i: nat, j: nat)
    requires lat.Valid() && i <= j
    ensures NodeSpot(s, lat, i, j) == SpotAfterMoves(s, lat, i, j - i)
  {
    assert i - (j - i) == 2 * i - j;
    PowByMoves(lat.up, i, j - i);
  }

  /** The maturity layer holds n + 1 values; entry i is the exercise value
      at maturity of the spot reached from s by i up moves and n - i down
      moves. */
  lemma MaturityLayer(lat: Params, ex: Exercise, s: Spot, n: nat)
    requires lat.Valid()
    ensures |Layer(lat, ex, s, n, n)| == n + 1
    ensures forall i :: 0 <= i <= n ==>
      Layer(lat, ex, s, n, n)[i] == ex(SpotAfterMoves(s, lat, i, n - i), Moment(n, n))
  {
    var last := Layer(lat, ex, s, n, n);
    assert last == Terminal(lat, ex, s, n);
    forall i | 0 <= i <= n
      ensures last[i] == ex(SpotAfterMoves(s, lat, i, n - i), Moment(n, n))
    {
      assert last[i] == ex(NodeSpot(s, lat, i, n), Moment(n, n));
      NodeSpotByMoves(s, lat, i, n);
    }
  }

  /** With non-negative exercise values every node is non-negative, whatever
      the probabilities: each node is floored at its exercise value. */
  lemma NodesNonNegative(lat: Params, ex: Exercise, s: Spot, n: nat, j: nat)
    requires lat.Valid() && j <= n
    requires forall x: Spot, t: Time :: ex(x, t) >= 0.0
    ensures forall i :: 0 <= i <= j ==> Layer(lat, ex, s, n, j)[i] >= 0.0
    ensures TreeValue(lat, ex, s, n) >= 0.0
  {
  }

  /** Discounted expectation is monotone when the weights are a distribution. */
  lemma ContinuationMonotone(lat: Params, upper: real, lower: real, upper': real, lower': real)
    requires lat.RiskNeutral()
    requires upper <= upper' && lower <= lower'
    ensures Continuation(lat, upper, lower) <= Continuation(lat, upper', lower')
  {
    var q := lat.P1();
    MulMonotone(lat.p0, upper, upper');
    MulMonotone(q, lower, lower');
    var x, x' := lat.p0 * upper, lat.p0 * upper';
    var y, y' := q * lower, q * lower';
    AddMonotone(x, x', y, y');
    MulMonotone(lat.disc, x + y, x' + y');
    assert (x + y) * lat.disc <= (x' + y') * lat.disc;
  }

  /** A pointwise larger exercise function gives a pointwise larger layer. */
  lemma {:induction false} LayerMonotone(lat: Params, lo: Exercise, hi: Exercise, s: Spot, n: nat, j: nat)
    requires lat.RiskNeutral() && j <= n
    requires forall x: Spot, t: Time :: lo(x, t) <= hi(x, t)
    ensures forall i :: 0 <= i <= j ==> Layer(lat, lo, s, n, j)[i] <= Layer(lat, hi, s, n, j)[i]
    decreases n - j
  {
    if j < n {
      LayerMonotone(lat, lo, hi, s, n, j + 1);
      var a := Layer(lat, lo, s, n, j + 1);
      var b := Layer(lat, hi, s, n, j + 1);
      forall i | 0 <= i <= j
        ensures Layer(lat, lo, s, n, j)[i] <= Layer(lat, hi, s, n, j)[i]
      {
        ContinuationMonotone(lat, a[i + 1], a[i], b[i + 1], b[i]);
      }
    }
  }

  /** A pointwise larger exercise function gives a larger lattice value. */
  lemma TreeValueMonotone(lat: Params, lo: Exercise, hi: Exercise, s: Spot, n: nat)
    requires lat.RiskNeutral()
    requires forall x: Spot, t: Time :: lo(x, t) <= hi(x, t)
    ensures TreeValue(lat, lo, s, n) <= TreeValue(lat, hi, s, n)
  {
    LayerMonotone(lat, lo, hi, s, n, 0);
  }

  /** The engine only looks at the exercise function on the nodes of the
      lattice: two functions that agree there give the same layers. */
  lemma {:induction false} LayerAgreement(lat: Params, e1: Exercise, e2: Exercise, s: Spot, n: nat, j: nat)
    requires lat.Valid() && j <= n
    requires forall k: nat, i: nat :: j <= k <= n && i <= k ==>
      e1(NodeSpot(s, lat, i, k), Moment(k, n)) == e2(NodeSpot(s, lat, i, k), Moment(k, n))
    ensures Layer(lat, e1, s, n, j) == Layer(lat, e2, s, n, j)
    decreases n - j
  {
    if j == n {
      assert Terminal(lat, e1, s, n) == Terminal(lat, e2, s, n);
    } else {
      LayerAgreement(lat, e1, e2, s, n, j + 1);
      var next := Layer(lat, e1, s, n, j + 1);
      assert Step(lat, e1, s, n, j, next) == Step(lat, e2, s, n, j, next);
    }
  }

  /** For a payoff that is non-negative and worthless before maturity
      (European style), early exercise never binds: every node below
      maturity is exactly the discounted expectation of its successors. */
  lemma NoEarlyExercise(lat: Params, ex: Exercise, s: Spot, n: nat, j: nat)
    requires lat.RiskNeutral() && j < n
    requires forall x: Spot, t: Time :: ex(x, t) >= 0.0
    requires forall x: Spot, t: Time :: !t.AtMaturity() ==> ex(x, t) == 0.0
    ensures forall i :: 0 <= i <= j ==>
      Layer(lat, ex, s, n, j)[i] == Continuation(lat, Layer(lat, ex, s, n, j + 1)[i + 1], Layer(lat, ex, s, n, j + 1)[i])
  {
    var next := Layer(lat, ex, s, n, j + 1);
    forall i | 0 <= i <= j
      ensures Layer(lat, ex, s, n, j)[i] == Continuation(lat, next[i + 1], next[i])
    {
      assert next[i] >= 0.0 && next[i + 1] >= 0.0;
      ContinuationMonotone(lat, 0.0, 0.0, next[i + 1], next[i]);
      assert Continuation(lat, 0.0, 0.0) == 0.0;
      assert ex(NodeSpot(s, lat, i, j), Moment(j, n)) == 0.0;
    }
  }

  /** One pass of the inner loop of `getBinomialTreeValue` over the shared buffer, from
      index i up to j: each index k is overwritten from the values at k and
      k + 1 as they were before the pass, and nothing outside i..j moves. */
  function Sweep(lat: Params, ex: Exercise, s: Spot, n: nat, j: nat, buf: seq<real>, i: nat): (r: seq<real>)
    requires lat.Valid() && j < n && j + 1 < |buf| && i <= j + 1
    ensures |r| == |buf|
    ensures forall k :: 0 <= k < i ==> r[k] == buf[k]
    ensures forall k :: j < k < |buf| ==> r[k] == buf[k]
    ensures forall k :: i <= k <= j ==> r[k] == NodeValue(lat, ex, s, n, j, k, buf[k + 1], buf[k])
    decreases j + 1 - i
  {
    if i > j then buf
    else
      var written := buf[i := NodeValue(lat, ex, s, n, j, i, buf[i + 1], buf[i])];
      var r := Sweep(lat, ex, s, n, j, written, i + 1);
      assert forall k :: i < k < |buf| ==> written[k] == buf[k];
      r
  }

  /** The whole buffer once the backward loop has finished layer j: layer j
      in indices 0..j and, above it, the last node written of each later
      layer k, which is Layer(k)[k]. */
  function Buffer(lat: Params, ex: Exercise, s: Spot, n: nat, j: nat): (r: seq<real>)
    requires lat.Valid() && j <= n
    ensures |r| == n + 1
    ensures r[..j + 1] == Layer(lat, ex, s, n, j)
    ensures forall k :: j < k <= n ==> r[k] == Layer(lat, ex, s, n, k)[k]
    decreases n - j
  {
    if j == n then Terminal(lat, ex, s, n)
    else
      var prev := Buffer(lat, ex, s, n, j + 1);
      SweepIsStep(lat, ex, s, n, j, prev);
      Sweep(lat, ex, s, n, j, prev, 0)
  }

  /** A full pass over a buffer whose first j + 2 entries hold layer j + 1
      leaves layer j in its first j + 1 entries. */
  lemma SweepIsStep(lat: Params, ex: Exercise, s: Spot, n: nat, j: nat, buf: seq<real>)
    requires lat.Valid() && j < n && j + 1 < |buf|
    requires buf[..j + 2] == Layer(lat, ex, s, n, j + 1)
    ensures Sweep(lat, ex, s, n, j, buf, 0)[..j + 1] == Layer(lat, ex, s, n, j)
  {
    var r := Sweep(lat, ex, s, n, j, buf, 0);
    var next := Layer(lat, ex, s, n, j + 1);
    var layer := Layer(lat, ex, s, n, j);
    assert layer == Step(lat, ex, s, n, j, next);
    forall k | 0 <= k <= j
      ensures r[k] == layer[k]
    {
      assert buf[k] == next[k] && buf[k + 1] == next[k + 1];
    }
  }

  /** The inner loop of the backward pass, run on the shared buffer. */
  method SweepInPlace(values: array<real>, lat: Params, ex: Exercise, s: Spot, n: nat, j: nat)
    requires lat.Valid() && j < n && j + 1 < values.Length
    modifies values
    ensures values[..] == Sweep(lat, ex, s, n, j, old(values[..]), 0)
  {
    ghost var before := values[..];
    var i := 0;
    while i <= j
      invariant 0 <= i <= j + 1
      invariant Sweep(lat, ex, s, n, j, values[..], i) == Sweep(lat, ex, s, n, j, before, 0)
    {
      var exercise := ex(NodeSpot(s, lat, i, j), Moment(j, n));
      ghost var current := values[..];
      var node := Continuation(lat, values[i + 1], values[i]);
      if node < exercise {
        node := exercise;
      }
      assert node == NodeValue(lat, ex, s, n, j, i, current[i + 1], current[i]);
      values[i] := node;
      assert values[..] == current[i := node];
      i := i + 1;
    }
  }

  /** The first loop of `getBinomialTreeValue`: every index i of the buffer gets the
      exercise value at maturity of node i of the last layer. */
  method FillMaturity(values: array<real>, lat: Params, ex: Exercise, s: Spot, n: nat)
    requires lat.Valid() && values.Length == n + 1
    modifies values
    ensures values[..] == Terminal(lat, ex, s, n)
  {
    var i := 0;
    while i <= n
      invariant 0 <= i <= n + 1
      invariant forall k :: 0 <= k < i ==> values[k] == ex(NodeSpot(s, lat, k, n), Moment(n, n))
    {
      values[i] := ex(NodeSpot(s, lat, i, n), Moment(n, n));
      i := i + 1;
    }
  }

  /** `getBinomialTreeValue`: fill the maturity layer into a buffer of
      n + 1 values, then walk back to layer 0 overwriting indices 0..j in
      place, and return index 0. */
  method BinomialTreeValue(lat: Params, ex: Exercise, s: Spot, n: nat) returns (v: real)
    requires lat.Valid()
    ensures v == TreeValue(lat, ex, s, n)
    ensures v >= ex(s, Moment(0, n))
  {
    var values := new real[n + 1];
    FillMaturity(values, lat, ex, s, n);
    var j := n;
    while j > 0
      invariant 0 <= j <= n
      invariant values.Length == n + 1
      invariant values[..] == Buffer(lat, ex, s, n, j)
    {
      j := j - 1;
      SweepInPlace(values, lat, ex, s, n, j);
    }
    assert values[0] == Buffer(lat, ex, s, n, 0)[..1][0];
    v := values[0];
  }
}
