/** The wavenumber-linearisation interpolation plan.

    The spectrometer samples an A-line at points evenly spaced in wavelength;
    processing needs points evenly spaced in wavenumber. The plan computes
    both grids and, for every wavenumber point, the pair of wavelength samples
    to interpolate between: the nearest sample and its neighbour on one side,
    or the nearest sample twice at either end of the grid.

    Floating-point values are `real`s here, and only the structure of the
    plan is stated: lengths, index bounds and the shape of each index pair,
    which hold however the distance comparisons come out.
 */
module WavenumberInterpolationPlan {

  /** `linspace(start, end, num)`: nothing for 0 points, `[start]` for 1 point;
      otherwise `num - 1` points stepping from `start`, then `end` itself. A
      negative count runs the stepping loop zero times and yields `[end]`. */
  function Linspace(start: real, end: real, num: int): (r: seq<real>)
    ensures num == 0 ==> r == []
    ensures num == 1 ==> r == [start]
    ensures num < 0 ==> r == [end]
    ensures num >= 2 ==> |r| == num && r[0] == start && r[num - 1] == end
  {
    if num == 0 then []
    else if num == 1 then [start]
    else
      var delta := (end - start) / ((num - 1) as real);
      seq(if num > 1 then num - 1 else 0, i => start + delta * (i as real)) + [end]
  }

  /** `1 / x`. The float reciprocal of 0 is infinite, which a real cannot be;
      the model returns 0 there. */
  function Recip(x: real): real
  {
    if x == 0.0 then 0.0 else 1.0 / x
  }

  function AbsReal(x: real): real
  {
    if x < 0.0 then -x else x
  }

  /** `std::min_element`: the position of the first smallest element. */
  function FirstMin(d: seq<real>): (nn: nat)
    requires |d| > 0
    ensures nn < |d|
    ensures forall j :: 0 <= j < |d| ==> d[nn] <= d[j]
    ensures forall j :: 0 <= j < nn ==> d[nn] < d[j]
  {
    if |d| == 1 then 0
    else
      var m := FirstMin(d[..|d| - 1]);
      if d[|d| - 1] < d[m] then |d| - 1 else m
  }

  /** The value `std::max_element` points at: the largest element. */
  function MaxValue(d: seq<real>): (m: real)
    requires |d| > 0
    ensures m in d
    ensures forall j :: 0 <= j < |d| ==> d[j] <= m
  {
    if |d| == 1 then d[0]
    else
      var m := MaxValue(d[..|d| - 1]);
      assert forall j :: 0 <= j < |d| - 1 ==> d[..|d| - 1][j] == d[j];
      if m < d[|d| - 1] then d[|d| - 1] else m
  }

  /** The distance of every wavelength sample from one target point. */
  function Distances(lambda: seq<real>, target: real): (r: seq<real>)
    ensures |r| == |lambda|
  {
    seq(|lambda|, j requires 0 <= j < |lambda| => AbsReal(lambda[j] - target))
  }

  /** The index of the wavelength sample nearest to wavenumber point `i`. */
  function Nearest(lambda: seq<real>, k: seq<real>, i: int): (nn: nat)
    requires |lambda| > 0 && 0 <= i < |k|
    ensures nn < |lambda|
  {
    FirstMin(Distances(lambda, k[i]))
  }

  /** The left and right neighbours interpolated between, given the nearest
      index `nn`: the end index twice at either end; otherwise `nn` and the
      sample before it, or `nn` and the one after, depending on how
      `lambda[nn]` compares with `k[nn]`. The last comparison is false for
      both orders only for a float NaN, where the entries keep their initial
      0; reals have no NaN. */
  function NeighbourPair(lambda: seq<real>, k: seq<real>, nn: int): (pr: (int, int))
    requires |lambda| >= 2 && |k| == |lambda| && 0 <= nn < |lambda|
    ensures 0 <= pr.0 <= pr.1 <= |lambda| - 1
    ensures pr.1 - pr.0 <= 1
    ensures pr.0 == pr.1 <==> (nn == 0 || nn == |lambda| - 1)
    ensures pr.0 == nn || pr.1 == nn
  {
    var n := |lambda|;
    if nn == 0 then (0, 0)
    else if nn == n - 1 then (n - 1, n - 1)
    else if lambda[nn] >= k[nn] then (nn - 1, nn)
    else if lambda[nn] < k[nn] then (nn, nn + 1)
    else (0, 0)
  }

  /** A plan: the reciprocal wavelength grid, the linear wavenumber grid, the
      first grid step and `interp_map`, a row of left and a row of right
      neighbour indices. The source never sets the plan's own `aline_size` and
      `interpdk` members, so they are not part of this record. */
  datatype Plan = Plan(linearInLambda: seq<real>, linearInK: seq<real>, dLam: real, interpMap: seq<seq<int>>)

  /** The constructor `WavenumberInterpolationPlan(aline_size, interpdk)`. It
      needs at least two samples: with none it dereferences the minimum of an
      empty vector, with one it reads the second element of the grid. */
  function NewPlan(alineSize: int, interpdk: real): (p: Plan)
    requires alineSize >= 2
    ensures |p.linearInLambda| == alineSize && |p.linearInK| == alineSize
    ensures p.linearInK[0] <= p.linearInK[alineSize - 1]
    ensures forall j :: 0 <= j < alineSize ==>
              p.linearInK[0] <= p.linearInLambda[j] <= p.linearInK[alineSize - 1]
    ensures |p.interpMap| == 2 && |p.interpMap[0]| == alineSize && |p.interpMap[1]| == alineSize
    ensures forall i :: 0 <= i < alineSize ==>
              0 <= p.interpMap[0][i] <= p.interpMap[1][i] <= alineSize - 1
    ensures forall i :: 0 <= i < alineSize ==> p.interpMap[1][i] - p.interpMap[0][i] <= 1
    ensures forall i :: 0 <= i < alineSize ==>
              var nn := Nearest(p.linearInLambda, p.linearInK, i);
              && (p.interpMap[0][i] == p.interpMap[1][i] <==> nn == 0 || nn == alineSize - 1)
              && (p.interpMap[0][i] == nn || p.interpMap[1][i] == nn)
  {
    var linear := Linspace(1.0 - interpdk / 2.0, 1.0 + interpdk / 2.0, alineSize);
    var lambda := seq(alineSize, i requires 0 <= i < alineSize => Recip(linear[i]));
    var lo := lambda[FirstMin(lambda)];
    var hi := MaxValue(lambda);
    var k := Linspace(lo, hi, alineSize);
    var pairs := seq(alineSize, i requires 0 <= i < alineSize => NeighbourPair(lambda, k, Nearest(lambda, k, i)));
    var left := seq(alineSize, i requires 0 <= i < alineSize => pairs[i].0);
    var right := seq(alineSize, i requires 0 <= i < alineSize => pairs[i].1);
    Plan(lambda, k, lambda[1] - lambda[0], [left, right])
  }
}
