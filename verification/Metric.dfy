/** Rates over the last N samples, kept in a ring. */
module Metric {
  import opened Wire
  import opened Sums

  /** C's division of a number by a positive one. */
  function TruncDiv(a: int, b: int): int
    requires b > 0
  {
    if a >= 0 then a / b else -((-a) / b)
  }

  const UINT64_SIZE: int := 2 * INT64_LIMIT

  /**
   src/experiment/metric.c:80: a signed sum is divided by a size_t. A negative sum is converted to an unsigned 64-bit
   number first, and the quotient is returned as a signed one.
   */
  function Quotient(sum: int, n: int): int
    requires n > 0
  {
    if sum >= 0 then sum / n
    else
      var q := (sum % UINT64_SIZE) / n;
      if q < INT64_LIMIT then q else q - UINT64_SIZE
  }

  /** The quotient is the mean that a signed division gives exactly when the sum is not negative or n is one. */
  lemma QuotientIsMean(sum: int, n: int)
    requires -INT64_LIMIT <= sum < INT64_LIMIT && 0 < n < INT64_LIMIT
    ensures Quotient(sum, n) == TruncDiv(sum, n) <==> sum >= 0 || n == 1
  {
    if sum < 0 {
      var u := sum % UINT64_SIZE;
      assert u == sum + UINT64_SIZE && u >= INT64_LIMIT;
      if n > 1 {
        HalfIsLess(u, n);
        QuotientPositive(u, n);
        NonNegativeQuotient(-sum, n);
      } else {
        assert u / n == u;
      }
    }
  }

  lemma HalfIsLess(u: int, n: int)
    requires 0 <= u < UINT64_SIZE && n >= 2
    ensures u / n < INT64_LIMIT
  {
    var q := u / n;
    FloorBounds(u, n);
    if q > 0 {
      Monotone(2, n, q);
    }
  }

  lemma QuotientPositive(u: int, n: int)
    requires 0 < n <= u
    ensures u / n > 0
  {
    var q := u / n;
    FloorBounds(u, n);
    if q <= 0 {
      Monotone(q + 1, 1, n);
    }
  }

  lemma NonNegativeQuotient(x: int, d: int)
    requires x >= 0 && d > 0
    ensures x / d >= 0
  {
    var q := x / d;
    FloorBounds(x, d);
    if q < 0 {
      Monotone(q + 1, 0, d);
    }
  }

  /** One falling step of one in a ring of sixteen: the mean is 0, and more than 10^18 is reported. */
  lemma NegativeSumIsHuge()
    ensures TruncDiv(-1, 16) == 0 && Quotient(-1, 16) > 1_000_000_000_000_000_000
  {
  }

  lemma FloorBounds(x: int, d: int)
    requires d > 0
    ensures (x / d) * d <= x < (x / d + 1) * d
  {
    assert x == (x / d) * d + x % d;
    assert (x / d + 1) * d == (x / d) * d + d;
  }

  lemma Distribute(a: int, b: int, c: int)
    ensures (a + b) * c == a * c + b * c
  {
  }

  lemma Monotone(a: int, b: int, c: int)
    requires a <= b && c > 0
    ensures a * c <= b * c
    ensures a < b ==> a * c < b * c
  {
  }

  datatype Observation = Observation(value: int, base: int, factor: int)

  /** src/experiment/metric.c:53-55 */
  function Rate(x: Observation, y: Observation): int {
    var base := y.base - x.base;
    if base > 0 then TruncDiv((y.value - x.value) * y.factor, base) else 0
  }

  /** The rates recorded for the first n observations: none is until a positive base has been seen. */
  ghost function Rates(h: seq<Observation>, n: nat): seq<int>
    requires n <= |h|
  {
    if n <= 1 then [] else Rates(h, n - 1) + if h[n - 2].base > 0 then [Rate(h[n - 2], h[n - 1])] else []
  }

  /** The rate of one step: none of the value's change when the base has not advanced, else the truncated quotient. */
  lemma RateIs(x: Observation, y: Observation)
    ensures y.base <= x.base ==> Rate(x, y) == 0
    ensures y.base > x.base ==>
              var d, gain, q := y.base - x.base, (y.value - x.value) * y.factor, Rate(x, y);
              if gain >= 0 then q * d <= gain < (q + 1) * d else (q - 1) * d < gain <= q * d
  {
    if y.base > x.base {
      TruncDivIs((y.value - x.value) * y.factor, y.base - x.base);
    }
  }

  lemma TruncDivIs(a: int, b: int)
    requires b > 0
    ensures var q := TruncDiv(a, b); if a >= 0 then q * b <= a < (q + 1) * b else (q - 1) * b < a <= q * b
  {
    if a >= 0 {
      FloorBounds(a, b);
    } else {
      var f := (-a) / b;
      FloorBounds(-a, b);
      assert (-f) * b == -(f * b) && (-f - 1) * b == -((f + 1) * b);
    }
  }

  /** One more observation adds a rate unless it is the first or follows a base that is not positive. */
  lemma RatesThen(h: seq<Observation>, o: Observation)
    ensures Rates(h + [o], |h| + 1) ==
            Rates(h, |h|) + if h == [] || h[|h| - 1].base <= 0 then [] else [Rate(h[|h| - 1], o)]
  {
    RatesPrefix(h, o, |h|);
  }

  /** The last n rates, or all when there are fewer. */
  ghost function Last(rates: seq<int>, n: nat): seq<int> {
    if |rates| < n then rates else rates[|rates| - n..]
  }

  /** The ring holds exactly the last rates, oldest at idx once it is full, and zeros before that. */
  ghost predicate RingHolds(ring: seq<int>, idx: nat, rates: seq<int>) {
    && idx < |ring|
    && if |rates| < |ring| then idx == |rates| && ring[..idx] == rates && forall j :: idx <= j < |ring| ==> ring[j] == 0
       else ring[idx..] + ring[..idx] == Last(rates, |ring|)
  }

  lemma RingFills(ring: seq<int>, idx: nat, rates: seq<int>, x: int)
    requires RingHolds(ring, idx, rates) && |rates| < |ring|
    ensures RingHolds(ring[idx := x], if idx + 1 == |ring| then 0 else idx + 1, rates + [x])
  {
    var ring' := ring[idx := x];
    assert ring'[..idx + 1] == rates + [x];
    if idx + 1 == |ring| {
      assert ring'[0..] + ring'[..0] == ring' == ring'[..idx + 1];
    }
  }

  lemma RingTurns(ring: seq<int>, idx: nat, rates: seq<int>, x: int)
    requires RingHolds(ring, idx, rates) && |rates| >= |ring|
    ensures RingHolds(ring[idx := x], if idx + 1 == |ring| then 0 else idx + 1, rates + [x])
  {
    var n, ring' := |ring|, ring[idx := x];
    var l := Last(rates, n);
    assert Last(rates + [x], n) == l[1..] + [x];
    assert l[1..] == ring[idx + 1..] + ring[..idx];
    if idx + 1 == n {
      assert ring'[0..] + ring'[..0] == ring[idx + 1..] + ring[..idx] + [x];
    } else {
      assert ring'[idx + 1..] + ring'[..idx + 1] == ring[idx + 1..] + ring[..idx] + [x];
    }
  }

  /** Writing a rate at idx and stepping on, as src/experiment/metric.c:56-57 does. */
  lemma RingStep(ring: seq<int>, idx: nat, rates: seq<int>, x: int)
    requires RingHolds(ring, idx, rates)
    ensures RingHolds(ring[idx := x], (idx + 1) % |ring|, rates + [x])
  {
    assert (idx + 1) % |ring| == if idx + 1 == |ring| then 0 else idx + 1;
    if |rates| < |ring| {
      RingFills(ring, idx, rates, x);
    } else {
      RingTurns(ring, idx, rates, x);
    }
  }

  /** The sum over the ring is the sum of the last rates, in whatever order they lie. */
  lemma RingSum(ring: seq<int>, idx: nat, rates: seq<int>)
    requires RingHolds(ring, idx, rates)
    ensures var l := Last(rates, |ring|); Sum(ring, 0, |ring|) == Sum(l, 0, |l|)
  {
    var a, b := ring[..idx], ring[idx..];
    assert ring == a + b;
    SumConcat(a, b, |b|);
    if |rates| < |ring| {
      SumZeros(b, 0, |b|);
    } else {
      SumConcat(b, a, |a|);
    }
  }

  /** The fields of an entry whose observations were h. */
  ghost predicate EntryOf(lastBase: int, lastValue: int, idx: nat, ring: seq<int>, h: seq<Observation>) {
    && (if h == [] then lastBase == 0 else lastBase == h[|h| - 1].base && lastValue == h[|h| - 1].value)
    && RingHolds(ring, idx, Rates(h, |h|))
  }

  lemma {:induction false} RatesPrefix(h: seq<Observation>, o: Observation, n: nat)
    requires n <= |h|
    ensures Rates(h + [o], n) == Rates(h, n)
  {
    if n > 1 {
      RatesPrefix(h, o, n - 1);
    }
  }

  lemma EntryStep(lastBase: int, lastValue: int, idx: nat, ring: seq<int>, h: seq<Observation>, o: Observation)
    requires EntryOf(lastBase, lastValue, idx, ring, h)
    ensures lastBase <= 0 ==> EntryOf(o.base, o.value, idx, ring, h + [o])
    ensures var r := Rate(Observation(lastValue, lastBase, 0), o);
            lastBase > 0 ==> EntryOf(o.base, o.value, (idx + 1) % |ring|, ring[idx := r], h + [o])
  {
    RatesPrefix(h, o, |h|);
    if lastBase > 0 {
      RingStep(ring, idx, Rates(h, |h|), Rate(h[|h| - 1], o));
    } else {
      assert Rates(h + [o], |h| + 1) == Rates(h, |h|);
    }
  }

  const METRIC_SAMPLES: nat := 16

  class Entry {
    var lastBase: int
    var lastValue: int
    var idx: nat
    const samples: array<int>
    /** Everything that was tracked. */
    ghost var history: seq<Observation>

    ghost predicate Valid()
      reads this, samples
    {
      EntryOf(lastBase, lastValue, idx, samples[..], history)
    }

    /** src/experiment/metric.c:9-20 */
    constructor (n: int)
      ensures Valid() && fresh(samples) && samples.Length == (if n <= 0 then METRIC_SAMPLES else n) && history == []
    {
      lastBase, lastValue, idx, history := 0, 0, 0, [];
      samples := new int[if n <= 0 then METRIC_SAMPLES else n](_ => 0);
    }

    /** src/experiment/metric.c:52-58, 63-64 */
    method Observe(value: int, base: int, factor: int)
      requires Valid()
      modifies this, samples
      ensures Valid() && history == old(history) + [Observation(value, base, factor)]
    {
      ghost var o := Observation(value, base, factor);
      EntryStep(lastBase, lastValue, idx, samples[..], history, o);
      if lastBase > 0 {
        var b := base - lastBase;
        var v := value - lastValue;
        var avg := if b > 0 then TruncDiv(v * factor, b) else 0;
        samples[idx] := avg;
        assert samples[..] == old(samples[..])[idx := avg];
        idx := (idx + 1) % samples.Length;
      }
      lastBase, lastValue := base, value;
      history := history + [o];
    }

    /** src/experiment/metric.c:74-80: the sum of the last rates, divided by the size of the ring. */
    method Mean() returns (rate: int)
      requires Valid()
      ensures var l := Last(Rates(history, |history|), samples.Length);
              samples.Length > 0 && rate == Quotient(Sum(l, 0, |l|), samples.Length)
    {
      RingSum(samples[..], idx, Rates(history, |history|));
      var sum := 0;
      for j := 0 to samples.Length
        invariant sum == Sum(samples[..], 0, j)
      {
        sum := sum + samples[j];
      }
      rate := Quotient(sum, samples.Length);
    }
  }

  /** Distinct names have distinct entries, and distinct entries distinct rings. */
  ghost predicate Apart(m: map<Bytes, Entry>) {
    forall a, b :: a in m && b in m && a != b ==> m[a] != m[b] && m[a].samples != m[b].samples
  }

  class Metrics {
    const samples: nat
    var metrics: map<Bytes, Entry>
    ghost var Repr: set<object>

    ghost predicate Valid()
      reads this, Repr
    {
      && this in Repr && samples > 0 && Apart(metrics)
      && (forall a :: a in metrics ==> metrics[a] in Repr && metrics[a].samples in Repr)
      && (forall a :: a in metrics ==> metrics[a].samples.Length == samples && metrics[a].Valid())
    }

    /** What was tracked under a name. */
    ghost function History(name: Bytes): seq<Observation>
      reads this, Repr
      requires Valid()
    {
      if name in metrics then metrics[name].history else []
    }

    constructor (samples: nat)
      requires samples > 0
      ensures Valid() && fresh(Repr) && metrics == map[] && this.samples == samples
    {
      this.samples := samples;
      metrics, Repr := map[], {this};
    }

    method Install(name: Bytes)
      requires Valid() && name !in metrics
      modifies this
      ensures Valid() && fresh(Repr - old(Repr)) && name in metrics && metrics[name].history == []
      ensures metrics == old(metrics)[name := metrics[name]]
    {
      var e := new Entry(samples);
      forall a | a in metrics ensures metrics[a] != e && metrics[a].samples != e.samples && metrics[a].Valid() {
        assert old(metrics[a].Valid());
      }
      metrics := metrics[name := e];
      Repr := Repr + {e, e.samples};
    }

    /** src/experiment/metric.c:45-66 */
    method Track(name: Bytes, value: int, base: int, factor: int)
      requires Valid()
      modifies Repr
      ensures Valid() && fresh(Repr - old(Repr)) && name in metrics
      ensures History(name) == old(History(name)) + [Observation(value, base, factor)]
      ensures forall a :: a in metrics && a != name ==> a in old(metrics) && History(a) == old(History(a))
      ensures forall a :: a in old(metrics) ==> a in metrics
    {
      if name !in metrics {
        Install(name);
      }
      label A:
      metrics[name].Observe(value, base, factor);
      forall a | a in metrics && a != name
        ensures metrics[a].Valid() && metrics[a].history == old@A(metrics[a].history)
      {
        assert old@A(metrics[a].Valid());
      }
    }

    /** src/experiment/metric.c:68-81, for a name that has been tracked. */
    method Get(name: Bytes) returns (rate: int)
      requires Valid() && name in metrics
      ensures var l := Last(Rates(History(name), |History(name)|), samples);
              rate == Quotient(Sum(l, 0, |l|), samples)
    {
      rate := metrics[name].Mean();
    }
  }

  // ---------------------------------------------------------------- what the rate means

  /** A history that is steady from a on: positive bases a constant step apart, one factor, values that do not fall. */
  ghost predicate Steady(h: seq<Observation>, a: nat, d: int, factor: int) {
    && d > 0 && factor >= 0
    && (forall i :: a <= i < |h| ==> h[i].base > 0 && h[i].factor == factor)
    && (forall i :: a < i < |h| ==> h[i].base - h[i - 1].base == d && h[i - 1].value <= h[i].value)
  }

  /** What was gained in the steps from a to b, times the factor. */
  ghost function Gain(h: seq<Observation>, a: nat, b: nat, factor: int): int
    requires a < |h| && b < |h|
  {
    (h[b].value - h[a].value) * factor
  }

  ghost predicate IsFloor(rate: int, gain: int, d: int) {
    rate >= 0 && rate * d <= gain < (rate + 1) * d
  }

  lemma ProductNonNegative(a: int, b: int)
    requires a >= 0 && b >= 0
    ensures a * b >= 0
  {
  }

  lemma QuotientIsFloor(gain: int, d: int)
    requires d > 0 && gain >= 0
    ensures IsFloor(gain / d, gain, d)
  {
    FloorBounds(gain, d);
    NonNegativeQuotient(gain, d);
  }

  lemma RateFloor(h: seq<Observation>, a: nat, d: int, factor: int, i: nat)
    requires Steady(h, a, d, factor) && a <= i && i + 1 < |h|
    ensures IsFloor(Rate(h[i], h[i + 1]), Gain(h, i, i + 1, factor), d)
  {
    ProductNonNegative(h[i + 1].value - h[i].value, factor);
    QuotientIsFloor(Gain(h, i, i + 1, factor), d);
  }

  /** What was gained in each of n steps from a on. */
  ghost function Gains(h: seq<Observation>, a: nat, n: nat, factor: int): (g: seq<int>)
    requires a + n < |h|
    ensures |g| == n
  {
    seq(n, i requires 0 <= i < n => Gain(h, a + i, a + i + 1, factor))
  }

  /** The rates are the floors of the gains. */
  ghost predicate Floors(rates: seq<int>, gains: seq<int>, d: int) {
    |rates| == |gains| && forall i :: 0 <= i < |rates| ==> IsFloor(rates[i], gains[i], d)
  }

  lemma LastNext(rates: seq<int>, n: nat, r: int)
    requires |rates| >= n
    ensures Last(rates + [r], n + 1) == Last(rates, n) + [r]
  {
  }

  lemma FloorsNext(rates: seq<int>, gains: seq<int>, d: int, r: int, g: int)
    requires Floors(rates, gains, d) && IsFloor(r, g, d)
    ensures Floors(rates + [r], gains + [g], d)
  {
    forall i | 0 <= i < |rates| + 1 ensures IsFloor((rates + [r])[i], (gains + [g])[i], d) {
      if i < |rates| {
        assert IsFloor(rates[i], gains[i], d);
      }
    }
  }

  lemma GainsNext(h: seq<Observation>, a: nat, n: nat, factor: int)
    requires a + n + 1 < |h|
    ensures Gains(h, a, n + 1, factor) == Gains(h, a, n, factor) + [Gain(h, a + n, a + n + 1, factor)]
  {
  }

  lemma RatesNext(h: seq<Observation>, n: nat)
    requires 0 < n < |h| && h[n - 1].base > 0
    ensures Rates(h, n + 1) == Rates(h, n) + [Rate(h[n - 1], h[n])]
  {
  }

  /** Whatever came before a, n steady steps leave the floors of their gains as the last rates. */
  lemma {:induction false} LastAreFloors(h: seq<Observation>, a: nat, d: int, factor: int, n: nat)
    requires Steady(h, a, d, factor) && a + n < |h|
    ensures |Rates(h, a + n + 1)| >= n && |Last(Rates(h, a + n + 1), n)| == n
    ensures Floors(Last(Rates(h, a + n + 1), n), Gains(h, a, n, factor), d)
  {
    if n > 0 {
      var k, r := a + n - 1, Rate(h[a + n - 1], h[a + n]);
      LastAreFloors(h, a, d, factor, n - 1);
      RatesNext(h, k + 1);
      LastNext(Rates(h, k + 1), n - 1, r);
      RateFloor(h, a, d, factor, k);
      GainsNext(h, a, n - 1, factor);
      FloorsNext(Last(Rates(h, k + 1), n - 1), Gains(h, a, n - 1, factor), d, r, Gain(h, k, k + 1, factor));
    }
  }

  /** One more floor r of x / d, after floors whose sum s stands for y / d. */
  lemma FloorStep(s: int, y: int, r: int, x: int, k: nat, d: int)
    requires d > 0 && s * d <= y <= (s + k) * d && r * d <= x < (r + 1) * d
    ensures (s + r) * d <= y + x < (s + r + (k + 1)) * d
  {
    Distribute(s, r, d);
    Distribute(s + k, r + 1, d);
  }

  /** Each floor loses less than one step, so a sum of floors loses less than as many as it has terms. */
  lemma {:induction false} SumOfFloors(rates: seq<int>, gains: seq<int>, d: int, k: nat)
    requires d > 0 && Floors(rates, gains, d) && k <= |rates|
    ensures var s, gained := Sum(rates, 0, k), Sum(gains, 0, k);
            s * d <= gained <= (s + k) * d && (k > 0 ==> gained < (s + k) * d)
  {
    if k > 0 {
      SumOfFloors(rates, gains, d, k - 1);
      assert IsFloor(rates[k - 1], gains[k - 1], d);
      FloorStep(Sum(rates, 0, k - 1), Sum(gains, 0, k - 1), rates[k - 1], gains[k - 1], k - 1, d);
    }
  }

  /** What is gained step by step is what is gained in all. */
  lemma {:induction false} GainsTelescope(h: seq<Observation>, a: nat, n: nat, factor: int, k: nat)
    requires a + n < |h| && k <= n
    ensures Sum(Gains(h, a, n, factor), 0, k) == Gain(h, a, a + k, factor)
  {
    if k > 0 {
      GainsTelescope(h, a, n, factor, k - 1);
      var i, x, y := a + k - 1, h[a + k - 1].value - h[a].value, h[a + k].value - h[a + k - 1].value;
      assert Gain(h, a, i, factor) == x * factor && Gain(h, i, i + 1, factor) == y * factor;
      Distribute(x, y, factor);
      assert Gain(h, a, a + k, factor) == (x + y) * factor;
      assert Gains(h, a, n, factor)[k - 1] == Gain(h, i, i + 1, factor);
    } else {
      assert Gain(h, a, a, factor) == 0 * factor;
    }
  }

  lemma FloorsNonNegative(rates: seq<int>, gains: seq<int>, d: int)
    requires Floors(rates, gains, d)
    ensures Sum(rates, 0, |rates|) >= 0
  {
    forall i | 0 <= i < |rates| ensures rates[i] >= 0 {
      assert IsFloor(rates[i], gains[i], d);
    }
    SumNonNegative(rates, 0, |rates|);
  }

  lemma MeanBounds(w: nat, n: nat, rate: int, gained: int, d: int)
    requires n > 0 && d > 0 && rate == w / n && w * d <= gained < (w + n) * d
    ensures rate * n * d <= gained < (rate + 2) * n * d
  {
    FloorBounds(w, n);
    Monotone(rate * n, w, d);
    assert (rate + 2) * n == (rate + 1) * n + n;
    Monotone(w + n, (rate + 2) * n, d);
  }

  lemma LastRates(h: seq<Observation>, d: int, factor: int, n: nat) returns (w: nat)
    requires 0 < n < |h| && Steady(h, |h| - 1 - n, d, factor)
    ensures var l := Last(Rates(h, |h|), n); w == Sum(l, 0, |l|)
    ensures w * d <= Gain(h, |h| - 1 - n, |h| - 1, factor) < (w + n) * d
  {
    var a, l := |h| - 1 - n, Last(Rates(h, |h|), n);
    LastAreFloors(h, a, d, factor, n);
    GainsTelescope(h, a, n, factor, n);
    w := SumBetween(l, Gains(h, a, n, factor), d);
  }

  lemma SumBetween(rates: seq<int>, gains: seq<int>, d: int) returns (w: nat)
    requires d > 0 && Floors(rates, gains, d) && rates != []
    ensures w == Sum(rates, 0, |rates|)
    ensures w * d <= Sum(gains, 0, |gains|) < (w + |rates|) * d
  {
    FloorsNonNegative(rates, gains, d);
    SumOfFloors(rates, gains, d, |rates|);
    w := Sum(rates, 0, |rates|);
  }

  /**
   When the last n + 1 observations are steady, whatever came before them, the reported number A is the true rate over
   their n steps, rounded down by less than two: A <= (V - V') * factor / (n * d) < A + 2, multiplied out.
   */
  lemma ReportedRate(h: seq<Observation>, d: int, factor: int, n: nat, rate: int)
    requires 0 < n < |h| && Steady(h, |h| - 1 - n, d, factor)
    requires var l := Last(Rates(h, |h|), n); rate == Quotient(Sum(l, 0, |l|), n)
    ensures rate * n * d <= Gain(h, |h| - 1 - n, |h| - 1, factor) < (rate + 2) * n * d
  {
    var w := LastRates(h, d, factor, n);
    MeanBounds(w, n, rate, Gain(h, |h| - 1 - n, |h| - 1, factor), d);
  }

  lemma PrefixNext(h: seq<Observation>, i: nat)
    requires i < |h|
    ensures h[..i] + [h[i]] == h[..i + 1]
  {
  }

  method TrackEach(m: Metrics, name: Bytes, h: seq<Observation>)
    requires m.Valid() && name !in m.metrics
    modifies m.Repr
    ensures m.Valid() && m.History(name) == h && (h != [] ==> name in m.metrics)
  {
    for i := 0 to |h|
      invariant m.Valid() && fresh(m.Repr - old(m.Repr)) && m.History(name) == h[..i]
      invariant i > 0 ==> name in m.metrics
    {
      PrefixNext(h, i);
      m.Track(name, h[i].value, h[i].base, h[i].factor);
    }
    assert h[..|h|] == h;
  }

  /** Every run: what is reported after tracking h under a new name is the quotient of its last rates. */
  method TrackAll(m: Metrics, name: Bytes, h: seq<Observation>) returns (rate: int)
    requires m.Valid() && name !in m.metrics && h != []
    modifies m.Repr
    ensures m.samples > 0
    ensures var l := Last(Rates(h, |h|), m.samples); rate == Quotient(Sum(l, 0, |l|), m.samples)
  {
    TrackEach(m, name, h);
    rate := m.Get(name);
  }

  /** The same when the ring has been filled by steady observations: the report is the true rate, less at most two. */
  method Report(m: Metrics, name: Bytes, h: seq<Observation>, ghost d: int, ghost factor: int) returns (rate: int)
    requires m.Valid() && name !in m.metrics && m.samples < |h| && Steady(h, |h| - 1 - m.samples, d, factor)
    modifies m.Repr
    ensures rate * m.samples * d <= Gain(h, |h| - 1 - m.samples, |h| - 1, factor) < (rate + 2) * m.samples * d
  {
    rate := TrackAll(m, name, h);
    ReportedRate(h, d, factor, m.samples, rate);
  }

  /** A run whose report is no mean at all: two observations a step apart, the second lower by one. */
  method FallingReport() returns (rate: int)
    ensures rate > 1_000_000_000_000_000_000
  {
    var m := new Metrics(16);
    var h := [Observation(1, 1, 1), Observation(0, 2, 1)];
    assert Rates(h, 2) == [-1] by { assert Rates(h, 1) == []; }
    assert Sum([-1], 0, 1) == -1;
    rate := TrackAll(m, [], h);
    NegativeSumIsHuge();
  }
}
