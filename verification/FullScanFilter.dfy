/**
  The smoothing and the bilateral filter over the points of one scan.  Distances are
  integers; the bilateral weights are arbitrary nonnegative reals.
 */
module FullScanFilter {
  import opened Decode

  const WINDOW := 5
  const HALF := 2
  const THRESHOLD := 40

  datatype FilterPara = FilterPara(minRange: int, maxRange: int)

  predicate IsValidRange(para: FilterPara, current: nat) {
    para.minRange <= current <= para.maxRange
  }

  // ---------------------------------------------------------------------------------
  // Smoothing
  // ---------------------------------------------------------------------------------

  /** Reading j of the window around i takes part: it is nonzero and near the centre. */
  predicate TakesPart(ps: seq<Point>, i: nat, j: nat)
    requires HALF <= i < |ps| - HALF && j < WINDOW
  {
    var centre, reading := ps[i].distance, ps[i + j - HALF].distance;
    reading != 0 && -THRESHOLD < centre - reading < THRESHOLD
  }

  function WindowCount(ps: seq<Point>, i: nat, n: nat): (r: nat)
    requires HALF <= i < |ps| - HALF && n <= WINDOW
    ensures r <= n
  {
    if n == 0 then 0 else WindowCount(ps, i, n - 1) + if TakesPart(ps, i, n - 1) then 1 else 0
  }

  function WindowSum(ps: seq<Point>, i: nat, n: nat): nat
    requires HALF <= i < |ps| - HALF && n <= WINDOW
  {
    if n == 0 then 0
    else WindowSum(ps, i, n - 1) + if TakesPart(ps, i, n - 1) then ps[i + n - 1 - HALF].distance else 0
  }

  /** The filtered distance of point i of a scan. */
  function Smoothed(ps: seq<Point>, para: FilterPara, i: nat): nat
    requires i < |ps|
  {
    if |ps| < WINDOW || i < HALF || i >= |ps| - HALF || !IsValidRange(para, ps[i].distance) then ps[i].distance
    else
      var count := WindowCount(ps, i, WINDOW);
      if count == 0 then ps[i].distance else WindowSum(ps, i, WINDOW) / count
  }

  method SmoothFilter(data: array<Point>, count: nat, para: FilterPara, out: array<Point>)
    requires data != out && data.Length == out.Length && count <= data.Length
    modifies out
    ensures forall i | 0 <= i < count :: out[i] == data[i].(distance := Smoothed(data[..count], para, i))
    ensures forall i | count <= i < data.Length :: out[i] == data[i]
  {
    forall i | 0 <= i < data.Length {
      out[i] := data[i];
    }
    if count < WINDOW {
      return;
    }
    var i := HALF;
    while i < count - HALF
      invariant HALF <= i <= count - HALF
      invariant forall k | 0 <= k < i :: out[k] == data[k].(distance := Smoothed(data[..count], para, k))
      invariant forall k | i <= k < data.Length :: out[k] == data[k]
    {
      if IsValidRange(para, data[i].distance) {
        var sum, cnt := SumWindow(data, count, i);
        if cnt != 0 {
          out[i] := out[i].(distance := sum / cnt);
        }
      }
      i := i + 1;
    }
  }

  /** The loop over the window. */
  method SumWindow(data: array<Point>, count: nat, i: nat) returns (sum: nat, cnt: nat)
    requires count <= data.Length && HALF <= i < count - HALF
    ensures sum == WindowSum(data[..count], i, WINDOW) && cnt == WindowCount(data[..count], i, WINDOW)
  {
    sum, cnt := 0, 0;
    var j := 0;
    while j < WINDOW
      invariant 0 <= j <= WINDOW
      invariant sum == WindowSum(data[..count], i, j) && cnt == WindowCount(data[..count], i, j)
    {
      var reading := data[i + j - HALF].distance;
      if reading != 0 {
        var diff: int := data[i].distance - reading;
        if (if diff < 0 then -diff else diff) < THRESHOLD {
          cnt := cnt + 1;
          sum := sum + reading;
        }
      }
      j := j + 1;
    }
  }

  lemma TimesNext(k: int, x: int)
    ensures (k + 1) * x == k * x + x
  {
  }

  lemma {:induction false} WindowBounds(ps: seq<Point>, i: nat, n: nat, lo: int, hi: int)
    requires HALF <= i < |ps| - HALF && n <= WINDOW
    requires lo == ps[i].distance - 39 && hi == ps[i].distance + 39
    ensures WindowCount(ps, i, n) * lo <= WindowSum(ps, i, n) <= WindowCount(ps, i, n) * hi
  {
    if n > 0 {
      WindowBounds(ps, i, n - 1, lo, hi);
      TimesNext(WindowCount(ps, i, n - 1), lo);
      TimesNext(WindowCount(ps, i, n - 1), hi);
    }
  }

  lemma MeanBounds(sum: nat, k: nat, lo: int, hi: int)
    requires 0 < k <= WINDOW && k * lo <= sum <= k * hi
    ensures lo <= sum / k <= hi
  {
    match k
    case 1 =>
    case 2 =>
    case 3 =>
    case 4 =>
    case _ =>
  }

  /** Smoothing moves no distance by 40 or more, and leaves the margins and the points out of range alone. */
  lemma SmoothingIsGentle(ps: seq<Point>, para: FilterPara, i: nat)
    requires i < |ps|
    ensures ps[i].distance - 39 <= Smoothed(ps, para, i) <= ps[i].distance + 39
    ensures i < HALF || i >= |ps| - HALF || !IsValidRange(para, ps[i].distance) ==>
              Smoothed(ps, para, i) == ps[i].distance
  {
    if HALF <= i < |ps| - HALF && WindowCount(ps, i, WINDOW) != 0 {
      WindowBounds(ps, i, WINDOW, ps[i].distance - 39, ps[i].distance + 39);
      MeanBounds(WindowSum(ps, i, WINDOW), WindowCount(ps, i, WINDOW), ps[i].distance - 39, ps[i].distance + 39);
    }
  }

  /** A reading that counts: it is there, and less than 40 from the centre. */
  predicate Near(centre: nat, reading: nat) {
    reading != 0 && centre - 39 <= reading <= centre + 39
  }

  function One(centre: nat, reading: nat): nat {
    if Near(centre, reading) then 1 else 0
  }

  function Amount(centre: nat, reading: nat): nat {
    if Near(centre, reading) then reading else 0
  }

  /**
    A point in range that has two neighbours on each side gets the mean, rounded down, of the
    near readings among the five; without any, and in all other cases, it keeps its distance.
   */
  lemma SmoothedExactly(ps: seq<Point>, para: FilterPara, i: nat)
    requires i < |ps|
    ensures var c, out := ps[i].distance, Smoothed(ps, para, i);
            if 2 <= i < |ps| - 2 && para.minRange <= c <= para.maxRange then
              var a, b, d, e := ps[i - 2].distance, ps[i - 1].distance, ps[i + 1].distance, ps[i + 2].distance;
              var k := One(c, a) + One(c, b) + One(c, c) + One(c, d) + One(c, e);
              var sum := Amount(c, a) + Amount(c, b) + Amount(c, c) + Amount(c, d) + Amount(c, e);
              if k > 0 then k * out <= sum < k * (out + 1) else out == c
            else out == c
  {
    if 2 <= i < |ps| - 2 {
      FiveReadings(ps, i);
      hide WindowSum, WindowCount, Near;
      if WindowCount(ps, i, WINDOW) > 0 {
        FloorMean(WindowSum(ps, i, WINDOW), WindowCount(ps, i, WINDOW));
      }
    }
  }

  lemma FloorMean(sum: nat, k: nat)
    requires k > 0
    ensures k * (sum / k) <= sum < k * (sum / k + 1)
  {
    assert sum == k * (sum / k) + sum % k;
  }

  lemma FiveReadings(ps: seq<Point>, i: nat)
    requires 2 <= i < |ps| - 2
    ensures var a, b, c, d, e :=
              ps[i - 2].distance, ps[i - 1].distance, ps[i].distance, ps[i + 1].distance, ps[i + 2].distance;
            && WindowCount(ps, i, WINDOW) == One(c, a) + One(c, b) + One(c, c) + One(c, d) + One(c, e)
            && WindowSum(ps, i, WINDOW) == Amount(c, a) + Amount(c, b) + Amount(c, c) + Amount(c, d) + Amount(c, e)
  {
    hide WindowCount, WindowSum, One, Amount;
    NextReading(ps, i, 0);
    NextReading(ps, i, 1);
    NextReading(ps, i, 2);
    NextReading(ps, i, 3);
    NextReading(ps, i, 4);
  }

  lemma NextReading(ps: seq<Point>, i: nat, j: nat)
    requires 2 <= i < |ps| - 2 && j < WINDOW
    ensures j == 0 ==> WindowCount(ps, i, j) == WindowSum(ps, i, j) == 0
    ensures WindowCount(ps, i, j + 1) == WindowCount(ps, i, j) + One(ps[i].distance, ps[i + j - 2].distance)
    ensures WindowSum(ps, i, j + 1) == WindowSum(ps, i, j) + Amount(ps[i].distance, ps[i + j - 2].distance)
  {
    assert TakesPart(ps, i, j) <==> Near(ps[i].distance, ps[i + j - 2].distance);
  }

  /** For example: all five readings are near, and their mean is 1008. */
  lemma SmoothingExample(para: FilterPara)
    requires para.minRange <= 1000 <= para.maxRange
    ensures var at := (d: nat) => Point(d, 0, 0);
            Smoothed([at(1000), at(1000), at(1000), at(1020), at(1020)], para, 2) == 1008
  {
    SmoothedExactly([Point(1000, 0, 0), Point(1000, 0, 0), Point(1000, 0, 0), Point(1020, 0, 0), Point(1020, 0, 0)],
                    para, 2);
  }

  // ---------------------------------------------------------------------------------
  // The bilateral filter
  // ---------------------------------------------------------------------------------

  /** The weight of a window slot, for a difference between centre and reading. */
  type Kernel = (nat, nat) -> real

  ghost predicate Nonnegative(w: Kernel) {
    forall j: nat, difference: nat :: w(j, difference) >= 0.0
  }

  /** The unsigned 16-bit difference: it wraps around when the reading is beyond the centre. */
  function Difference(centre: nat, reading: nat): nat {
    (centre - reading) % 0x1_0000
  }

  /** Cell m of the padded distances: two from the end of the scan, the scan, and two zeros. */
  function Padded(ps: seq<Point>, m: nat): nat
    requires |ps| >= 3 && m < |ps| + 4
  {
    if m < HALF then ps[|ps| - HALF + m].distance
    else if m < |ps| + HALF then ps[m - HALF].distance
    else 0
  }

  /** The readings in the window of point i. */
  function Window(ps: seq<Point>, i: nat): (win: seq<nat>)
    requires |ps| >= 3 && i < |ps|
    ensures |win| == WINDOW && win[HALF] == ps[i].distance
  {
    [Padded(ps, i), Padded(ps, i + 1), Padded(ps, i + 2), Padded(ps, i + 3), Padded(ps, i + 4)]
  }

  /** The part that reading j adds to the sum of the weights. */
  function Weight(win: seq<nat>, w: Kernel, j: nat): (r: real)
    requires |win| == WINDOW && j < WINDOW
  {
    if win[j] != 0 then w(j, Difference(win[HALF], win[j])) else 0.0
  }

  function WeightSum(win: seq<nat>, w: Kernel, n: nat): real
    requires |win| == WINDOW && n <= WINDOW
  {
    if n == 0 then 0.0 else WeightSum(win, w, n - 1) + Weight(win, w, n - 1)
  }

  function WeightedSum(win: seq<nat>, w: Kernel, n: nat): real
    requires |win| == WINDOW && n <= WINDOW
  {
    if n == 0 then 0.0 else WeightedSum(win, w, n - 1) + win[n - 1] as real * Weight(win, w, n - 1)
  }

  /** Some nonzero reading among the first n has a weight. */
  ghost predicate HasWeight(win: seq<nat>, w: Kernel, n: nat)
    requires n <= |win| == WINDOW
  {
    exists j | 0 <= j < n :: Weight(win, w, j) > 0.0
  }

  /** lo and hi bound the nonzero readings of the window. */
  ghost predicate Hull(win: seq<nat>, lo: nat, hi: nat) {
    forall j | 0 <= j < |win| && win[j] != 0 :: lo <= win[j] <= hi
  }

  lemma WeightedStep(lo: real, hi: real, sum: real, weights: real, reading: real, weight: real, newSum: real,
                     newWeights: real)
    requires lo * weights <= sum <= hi * weights && weight >= 0.0
    requires weight > 0.0 ==> lo <= reading <= hi
    requires newSum == sum + reading * weight && newWeights == weights + weight
    ensures lo * newWeights <= newSum <= hi * newWeights
  {
    if weight > 0.0 {
      assert lo * weight <= reading * weight <= hi * weight;
    } else {
      assert reading * weight == 0.0;
    }
  }

  lemma WeightSign(win: seq<nat>, w: Kernel, j: nat)
    requires |win| == WINDOW && j < WINDOW && Nonnegative(w)
    ensures Weight(win, w, j) >= 0.0 && (win[j] == 0 ==> Weight(win, w, j) == 0.0)
  {
  }

  lemma {:induction false} WeightsAdd(win: seq<nat>, w: Kernel, n: nat)
    requires |win| == WINDOW && n <= WINDOW && Nonnegative(w)
    ensures WeightSum(win, w, n) >= 0.0
    ensures WeightSum(win, w, n) > 0.0 <==> HasWeight(win, w, n)
  {
    hide Weight;
    if n > 0 {
      WeightsAdd(win, w, n - 1);
      WeightSign(win, w, n - 1);
      assert HasWeight(win, w, n) <==> HasWeight(win, w, n - 1) || Weight(win, w, n - 1) > 0.0;
    }
  }

  lemma SumsStep(win: seq<nat>, w: Kernel, n: nat)
    requires |win| == WINDOW && n <= WINDOW
    ensures n == 0 ==> WeightSum(win, w, n) == WeightedSum(win, w, n) == 0.0
    ensures n > 0 ==> WeightSum(win, w, n) == WeightSum(win, w, n - 1) + Weight(win, w, n - 1)
    ensures n > 0 ==> WeightedSum(win, w, n) == WeightedSum(win, w, n - 1) + win[n - 1] as real * Weight(win, w, n - 1)
  {
  }

  lemma {:induction false} WeightedBounds(win: seq<nat>, w: Kernel, n: nat, lo: real, hi: real)
    requires |win| == WINDOW && n <= WINDOW && Nonnegative(w)
    requires forall j | 0 <= j < n && win[j] != 0 :: lo <= win[j] as real <= hi
    ensures lo * WeightSum(win, w, n) <= WeightedSum(win, w, n) <= hi * WeightSum(win, w, n)
  {
    hide Weight, Nonnegative, WeightSum, WeightedSum;
    SumsStep(win, w, n);
    if n == 0 {
    } else {
      WeightedBounds(win, w, n - 1, lo, hi);
      WeightSign(win, w, n - 1);
      WeightedStep(lo, hi, WeightedSum(win, w, n - 1), WeightSum(win, w, n - 1), win[n - 1] as real,
                   Weight(win, w, n - 1), WeightedSum(win, w, n), WeightSum(win, w, n));
    }
  }

  lemma QuotientBounds(sum: real, weights: real, lo: real, hi: real)
    requires weights > 0.0 && lo * weights <= sum <= hi * weights
    ensures lo <= sum / weights <= hi
  {
    assert sum == (sum / weights) * weights;
  }

  lemma MeanIsNatural(win: seq<nat>, w: Kernel)
    requires |win| == WINDOW && Nonnegative(w) && WeightSum(win, w, WINDOW) != 0.0
    ensures WeightedSum(win, w, WINDOW) / WeightSum(win, w, WINDOW) >= 0.0
  {
    hide WeightSum, WeightedSum;
    var hi := win[0] + win[1] + win[2] + win[3] + win[4];
    WeightsAdd(win, w, WINDOW);
    WeightedBounds(win, w, WINDOW, 0.0, hi as real);
    QuotientBounds(WeightedSum(win, w, WINDOW), WeightSum(win, w, WINDOW), 0.0, hi as real);
  }

  /**
    The filtered distance of the centre of a window.  A window without any weight divides
    zero by zero; what the conversion to an integer makes of that is `undefined`.
   */
  ghost function FilteredCentre(win: seq<nat>, w: Kernel, undefined: nat): nat
    requires |win| == WINDOW && Nonnegative(w)
  {
    if WeightSum(win, w, WINDOW) == 0.0 then undefined
    else
      MeanIsNatural(win, w);
      (WeightedSum(win, w, WINDOW) / WeightSum(win, w, WINDOW)).Floor
  }

  ghost function Filtered(ps: seq<Point>, para: FilterPara, w: Kernel, undefined: nat, i: nat): nat
    requires i < |ps| && Nonnegative(w)
  {
    if |ps| < 3 || !IsValidRange(para, ps[i].distance) then ps[i].distance
    else FilteredCentre(Window(ps, i), w, undefined)
  }

  /**
    Whatever the weights, the mean of a window stays between its least and its greatest
    nonzero reading, before and after truncation.
   */
  lemma MeanInHull(win: seq<nat>, w: Kernel, undefined: nat, lo: nat, hi: nat)
    requires |win| == WINDOW && Nonnegative(w) && Hull(win, lo, hi)
    ensures WeightSum(win, w, WINDOW) > 0.0 <==> HasWeight(win, w, WINDOW)
    ensures if HasWeight(win, w, WINDOW) then
              && lo as real <= WeightedSum(win, w, WINDOW) / WeightSum(win, w, WINDOW) <= hi as real
              && lo <= FilteredCentre(win, w, undefined) <= hi
            else FilteredCentre(win, w, undefined) == undefined
  {
    hide WeightSum, WeightedSum;
    WeightsAdd(win, w, WINDOW);
    WeightedBounds(win, w, WINDOW, lo as real, hi as real);
    if WeightSum(win, w, WINDOW) > 0.0 {
      QuotientBounds(WeightedSum(win, w, WINDOW), WeightSum(win, w, WINDOW), lo as real, hi as real);
    }
  }

  /**
    A window has a weight whenever its centre is a reading and weights itself; and if all
    weights are positive, exactly when it has a reading.
   */
  lemma WhenWeighted(win: seq<nat>, w: Kernel)
    requires |win| == WINDOW && Nonnegative(w)
    ensures win[HALF] != 0 && w(HALF, 0) > 0.0 ==> HasWeight(win, w, WINDOW)
    ensures (forall j: nat, d: nat :: w(j, d) > 0.0) ==>
              (HasWeight(win, w, WINDOW) <==> exists j | 0 <= j < WINDOW :: win[j] != 0)
  {
    if win[HALF] != 0 && w(HALF, 0) > 0.0 {
      assert Weight(win, w, HALF) > 0.0;
    }
    if (forall j: nat, d: nat :: w(j, d) > 0.0) && exists j | 0 <= j < WINDOW :: win[j] != 0 {
      var j: nat :| j < WINDOW && win[j] != 0;
      assert Weight(win, w, j) > 0.0;
    }
  }

  /** Points in range are moved within the hull of their window, and points out of range not at all. */
  lemma FilteredInHull(ps: seq<Point>, para: FilterPara, w: Kernel, undefined: nat, i: nat, lo: nat, hi: nat)
    requires |ps| >= 3 && i < |ps| && Nonnegative(w) && Hull(Window(ps, i), lo, hi)
    ensures var d := Filtered(ps, para, w, undefined, i);
            if !IsValidRange(para, ps[i].distance) then d == ps[i].distance
            else if HasWeight(Window(ps, i), w, WINDOW) then lo <= d <= hi
            else d == undefined && (w(HALF, 0) > 0.0 ==> ps[i].distance == 0)
  {
    MeanInHull(Window(ps, i), w, undefined, lo, hi);
    WhenWeighted(Window(ps, i), w);
  }

  /**
    The weight of a reading under a centre in slot j: that of its distance below the centre, or,
    if it lies above, of the unsigned 16-bit difference.  A missing reading has none.
   */
  function Share(w: Kernel, j: nat, centre: nat, reading: nat): real
    requires centre < 0x1_0000 && reading < 0x1_0000
  {
    if reading == 0 then 0.0
    else if reading <= centre then w(j, centre - reading)
    else w(j, centre - reading + 65536)
  }

  /** The reading k places from point i: the scan is continued by its tail in front, and by zeros behind. */
  function Reading(ps: seq<Point>, i: nat, k: int): (r: nat)
    requires |ps| >= 3 && i < |ps| && -2 <= k <= 2
    ensures (forall p | p in ps :: p.distance < 0x1_0000) ==> r < 0x1_0000
  {
    if i + k < 0 then ps[|ps| + i + k].distance else if i + k < |ps| then ps[i + k].distance else 0
  }

  lemma WindowReadings(ps: seq<Point>, i: nat)
    requires |ps| >= 3 && i < |ps|
    ensures Window(ps, i) ==
            [Reading(ps, i, -2), Reading(ps, i, -1), ps[i].distance, Reading(ps, i, 1), Reading(ps, i, 2)]
  {
  }

  lemma ShareIsWeight(win: seq<nat>, w: Kernel, j: nat)
    requires |win| == WINDOW && j < WINDOW && win[HALF] < 0x1_0000 && win[j] < 0x1_0000
    ensures Weight(win, w, j) == Share(w, j, win[HALF], win[j])
  {
    WrappedDifference(win[HALF], win[j]);
  }

  lemma WrappedDifference(centre: nat, reading: nat)
    requires centre < 0x1_0000 && reading < 0x1_0000
    ensures Difference(centre, reading) == if reading <= centre then centre - reading else centre - reading + 65536
  {
  }

  /** The sum of the five weights of a window. */
  function FiveWeights(w: Kernel, c: nat, x0: nat, x1: nat, x2: nat, x3: nat, x4: nat): real
    requires c < 0x1_0000 && x0 < 0x1_0000 && x1 < 0x1_0000 && x2 < 0x1_0000 && x3 < 0x1_0000 && x4 < 0x1_0000
  {
    Share(w, 0, c, x0) + Share(w, 1, c, x1) + Share(w, 2, c, x2) + Share(w, 3, c, x3) + Share(w, 4, c, x4)
  }

  /** The weighted sum of the five readings of a window. */
  function FiveProducts(w: Kernel, c: nat, x0: nat, x1: nat, x2: nat, x3: nat, x4: nat): real
    requires c < 0x1_0000 && x0 < 0x1_0000 && x1 < 0x1_0000 && x2 < 0x1_0000 && x3 < 0x1_0000 && x4 < 0x1_0000
  {
    x0 as real * Share(w, 0, c, x0) + x1 as real * Share(w, 1, c, x1) + x2 as real * Share(w, 2, c, x2)
    + x3 as real * Share(w, 3, c, x3) + x4 as real * Share(w, 4, c, x4)
  }

  /** q is total / weights, rounded down. */
  predicate IsFloor(q: nat, total: real, weights: real) {
    q as real * weights <= total < (q as real + 1.0) * weights
  }

  lemma FloorIsFloor(total: real, weights: real, q: nat)
    requires weights > 0.0 && q == (total / weights).Floor
    ensures IsFloor(q, total, weights)
  {
    FloorBounds(total / weights, q, total, weights);
  }

  lemma FloorBounds(x: real, q: nat, total: real, weights: real)
    requires weights > 0.0 && x * weights == total && q as real <= x < q as real + 1.0
    ensures IsFloor(q, total, weights)
  {
    var below, above := x - q as real, q as real + 1.0 - x;
    ProductSign(below, weights);
    ProductSign(above, weights);
    assert below * weights == total - q as real * weights;
    assert above * weights == (q as real + 1.0) * weights - total;
  }

  lemma ProductSign(x: real, d: real)
    requires d > 0.0
    ensures x >= 0.0 ==> x * d >= 0.0
    ensures x > 0.0 ==> x * d > 0.0
  {
  }

  lemma ProductsNext(win: seq<nat>, w: Kernel, j: nat)
    requires |win| == WINDOW && j < WINDOW && win[HALF] < 0x1_0000 && win[j] < 0x1_0000
    ensures j == 0 ==> WeightSum(win, w, j) == WeightedSum(win, w, j) == 0.0
    ensures WeightSum(win, w, j + 1) == WeightSum(win, w, j) + Share(w, j, win[HALF], win[j])
    ensures WeightedSum(win, w, j + 1) == WeightedSum(win, w, j) + win[j] as real * Share(w, j, win[HALF], win[j])
  {
    ShareIsWeight(win, w, j);
    hide Share, Weight;
  }

  lemma FiveTerms(win: seq<nat>, w: Kernel)
    requires |win| == WINDOW && forall j | 0 <= j < WINDOW :: win[j] < 0x1_0000
    ensures WeightSum(win, w, WINDOW) == FiveWeights(w, win[2], win[0], win[1], win[2], win[3], win[4])
    ensures WeightedSum(win, w, WINDOW) == FiveProducts(w, win[2], win[0], win[1], win[2], win[3], win[4])
  {
    hide WeightSum, WeightedSum, Share;
    ProductsNext(win, w, 0);
    ProductsNext(win, w, 1);
    ProductsNext(win, w, 2);
    ProductsNext(win, w, 3);
    ProductsNext(win, w, 4);
  }

  lemma CentreExactly(win: seq<nat>, w: Kernel, undefined: nat)
    requires |win| == WINDOW && Nonnegative(w)
    requires forall j | 0 <= j < WINDOW :: win[j] < 0x1_0000
    ensures var weights := FiveWeights(w, win[2], win[0], win[1], win[2], win[3], win[4]);
            if weights == 0.0 then FilteredCentre(win, w, undefined) == undefined
            else
              IsFloor(FilteredCentre(win, w, undefined),
                      FiveProducts(w, win[2], win[0], win[1], win[2], win[3], win[4]), weights)
  {
    hide Weight, WeightSum, WeightedSum, FiveWeights, FiveProducts, IsFloor, HasWeight;
    FiveTerms(win, w);
    WeightsAdd(win, w, WINDOW);
    if WeightSum(win, w, WINDOW) != 0.0 {
      FloorIsFloor(WeightedSum(win, w, WINDOW), WeightSum(win, w, WINDOW), FilteredCentre(win, w, undefined));
    }
  }

  /**
    The filtered distance in numbers, for 16-bit readings: a point in range gets the weighted
    mean of its five readings, rounded down; any other keeps its distance.
   */
  lemma FilteredExactly(ps: seq<Point>, para: FilterPara, w: Kernel, undefined: nat, i: nat)
    requires i < |ps| && Nonnegative(w)
    requires forall p | p in ps :: p.distance < 0x1_0000
    ensures var c, out := ps[i].distance, Filtered(ps, para, w, undefined, i);
            if |ps| >= 3 && para.minRange <= c <= para.maxRange then
              var a, b, d, e := Reading(ps, i, -2), Reading(ps, i, -1), Reading(ps, i, 1), Reading(ps, i, 2);
              var weights := FiveWeights(w, c, a, b, c, d, e);
              if weights == 0.0 then out == undefined
              else IsFloor(out, FiveProducts(w, c, a, b, c, d, e), weights)
            else out == c
  {
    if |ps| >= 3 {
      WindowReadings(ps, i);
      hide Window, Reading, FiveWeights, FiveProducts, IsFloor, FilteredCentre;
      CentreExactly(Window(ps, i), w, undefined);
    }
  }

  /** For example: only differences below 100 count, and the reading below the centre is at difference 10. */
  lemma FilterExample(para: FilterPara, undefined: nat)
    requires para.minRange <= 1000 <= para.maxRange
    ensures var w := (j: nat, difference: nat) => if difference < 100 then 1.0 else 0.0;
            Filtered([Point(990, 0, 0), Point(1000, 0, 0), Point(0, 0, 0)], para, w, undefined, 1) == 995
  {
    var w := (j: nat, difference: nat) => if difference < 100 then 1.0 else 0.0;
    FilteredExactly([Point(990, 0, 0), Point(1000, 0, 0), Point(0, 0, 0)], para, w, undefined, 1);
  }

  method BilateralFilter(data: array<Point>, count: nat, para: FilterPara, w: Kernel, undefined: nat, out: array<Point>)
    requires data != out && data.Length == out.Length && count <= data.Length && Nonnegative(w)
    modifies out
    ensures forall i | 0 <= i < count :: out[i] == data[i].(distance := Filtered(data[..count], para, w, undefined, i))
    ensures forall i | count <= i < data.Length :: out[i] == data[i]
  {
    hide FilteredCentre, Nonnegative, Window;
    forall i | 0 <= i < data.Length {
      out[i] := data[i];
    }
    if count < 3 {
      return;
    }
    var temp := Pad(data, count);
    ghost var ps := data[..count];
    var i := HALF;
    while i < count + 4 - HALF
      modifies out
      invariant HALF <= i <= count + HALF
      invariant forall k | 0 <= k < i - HALF :: out[k] == data[k].(distance := Filtered(ps, para, w, undefined, k))
      invariant forall k | i - HALF <= k < data.Length :: out[k] == data[k]
    {
      if IsValidRange(para, temp[i]) {
        var d := FilterCell(temp, ps, i, w, undefined);
        out[i - HALF] := out[i - HALF].(distance := d);
      }
      i := i + 1;
    }
  }

  /** One filtered cell of the padded distances. */
  method FilterCell(temp: array<nat>, ghost ps: seq<Point>, i: nat, w: Kernel, undefined: nat) returns (d: nat)
    requires |ps| >= 3 && temp.Length == |ps| + 4 && HALF <= i < |ps| + HALF && Nonnegative(w)
    requires forall m | 0 <= m < |ps| + 4 :: temp[m] == Padded(ps, m)
    ensures d == FilteredCentre(Window(ps, i - HALF), w, undefined)
  {
    hide FilteredCentre, Nonnegative, Padded;
    var win := temp[i - HALF..i + HALF + 1];
    assert win == Window(ps, i - HALF);
    d := FilterWindow(win, w, undefined);
  }

  /** The padding loops.  The second one overwrites most of what the first one wrote behind the scan. */
  method Pad(data: array<Point>, count: nat) returns (temp: array<nat>)
    requires 3 <= count <= data.Length
    ensures fresh(temp) && temp.Length == count + 4
    ensures forall m | 0 <= m < count + 4 :: temp[m] == Padded(data[..count], m)
  {
    temp := new nat[count + 4](_ => 0);
    var i, j := 0, HALF;
    while i < HALF
      modifies temp
      invariant 0 <= i <= HALF && j == HALF - i
      invariant i > 0 ==> temp[0] == data[count - 2].distance
      invariant i > 1 ==> temp[1] == data[count - 1].distance
      invariant temp[count + 2] == temp[count + 3] == 0
    {
      temp[i] := data[count - j].distance;
      temp[count + i] := data[i].distance;
      i, j := i + 1, j - 1;
    }
    var k := 0;
    while k < count
      modifies temp
      invariant 0 <= k <= count
      invariant temp[0] == data[count - 2].distance && temp[1] == data[count - 1].distance
      invariant forall m | HALF <= m < k + HALF :: temp[m] == data[m - HALF].distance
      invariant temp[count + 2] == temp[count + 3] == 0
    {
      temp[k + HALF] := data[k].distance;
      k := k + 1;
    }
  }

  /** The loop over the sliding window. */
  method FilterWindow(win: seq<nat>, w: Kernel, undefined: nat) returns (d: nat)
    requires |win| == WINDOW && Nonnegative(w)
    ensures d == FilteredCentre(win, w, undefined)
  {
    hide WeightedSum, WeightSum, Nonnegative;
    var weighted, weights := 0.0, 0.0;
    var j := 0;
    SumsStep(win, w, 0);
    while j < WINDOW
      invariant 0 <= j <= WINDOW
      invariant weighted == WeightedSum(win, w, j) && weights == WeightSum(win, w, j)
    {
      if win[j] != 0 {
        var weight := w(j, Difference(win[HALF], win[j]));
        weighted := weighted + win[j] as real * weight;
        weights := weights + weight;
      }
      SumsStep(win, w, j + 1);
      j := j + 1;
    }
    if weights == 0.0 {
      d := undefined;
    } else {
      MeanIsNatural(win, w);
      d := (weighted / weights).Floor;
    }
  }

  /** The tail of the padding is not the head of the scan, as the comment beside it says, but zero. */
  lemma TailIsNotPadded(ps: seq<Point>)
    requires |ps| >= 3
    ensures Window(ps, |ps| - 1)[3] == Window(ps, |ps| - 1)[4] == 0
    ensures Window(ps, 0)[0] == ps[|ps| - 2].distance && Window(ps, 0)[1] == ps[|ps| - 1].distance
  {
  }
}
