/** `get_min_time_run`: the cheapest run of consecutive half-hour periods
    lasting `hours` hours, scanned over the dict in reversed order. */
module Runs {
  import opened Errors
  import opened OrderedDict
  import opened Selection

  datatype Option<T> = None | Some(value: T)

  /** Python's `int()` on a float: truncation toward zero. */
  function Trunc(x: real): (n: int)
    ensures 0.0 <= x ==> 0 <= n && n as real <= x < n as real + 1.0
    ensures x < 0.0 ==> n <= 0 && n as real - 1.0 < x <= n as real
  {
    if x >= 0.0 then x.Floor else -((-x).Floor)
  }

  /** `slots = int(hours * 2)`: the number of half-hour periods in the run. */
  function Slots(hours: real): int
  {
    Trunc(hours * 2.0)
  }

  /** The dict rebuilt from its items in reverse order. */
  function Reverse(d: Rates): (r: Rates)
    ensures |r| == |d|
  {
    seq(|d|, i requires 0 <= i < |d| => d[|d| - 1 - i])
  }

  /** Reversing keeps the keys distinct. */
  lemma ReverseDistinct(d: Rates)
    requires Distinct(d)
    ensures Distinct(Reverse(d))
  {
    DistinctPairs(d);
    var r := Reverse(d);
    forall a, b | 0 <= a < b < |r| ensures r[a].time != r[b].time {
      assert r[a] == d[|d| - 1 - a] && r[b] == d[|d| - 1 - b];
    }
    PairsDistinct(r);
  }

  /** `sum()` of a list of prices. */
  function Sum(xs: seq<real>): real
    decreases |xs|
  {
    if |xs| == 0 then 0.0 else Sum(xs[..|xs| - 1]) + xs[|xs| - 1]
  }

  /** The prices of the `len` entries of r from position i on: `this_avg`. */
  function WindowPrices(r: Rates, i: nat, len: nat): (ps: seq<real>)
    requires i + len <= |r|
    ensures |ps| == len
  {
    seq(len, j requires 0 <= j < len => r[i + j].price)
  }

  /** The mean price of the run of `slots` entries starting at position i. */
  function Avg(r: Rates, i: nat, slots: nat): real
    requires 0 < slots && i + slots <= |r|
  {
    Sum(WindowPrices(r, i, slots)) / (slots as real)
  }

  /** `avgs` after the first m complete runs: each run's first key and its mean. */
  function Averages(r: Rates, slots: nat, m: nat): (a: Rates)
    requires 0 < slots && (m == 0 || m + slots <= |r| + 1)
    ensures |a| == m
  {
    seq(m, i requires 0 <= i < m => Slot(r[i].time, Avg(r, i, slots)))
  }

  /** `avgs` is keyed by the distinct keys of r. */
  lemma AveragesDistinct(r: Rates, slots: nat, m: nat)
    requires Distinct(r) && 0 < slots && (m == 0 || m + slots <= |r| + 1)
    ensures Distinct(Averages(r, slots, m))
  {
    DistinctPairs(r);
    var a := Averages(r, slots, m);
    forall i, j | 0 <= i < j < m ensures a[i].time != a[j].time {
      assert a[i].time == r[i].time && a[j].time == r[j].time;
    }
    PairsDistinct(a);
  }

  /** Where the cheapest complete run starts, the first one on a tie: `min(avgs, key=avgs.get)`. */
  function BestStart(r: Rates, slots: nat): (w: nat)
    requires 0 < slots <= |r|
    ensures w <= |r| - slots
  {
    Extreme(Lowest, Averages(r, slots, |r| - slots + 1))
  }

  /** What `get_min_time_run(hours, in_d)` returns, on the reversed dict r:
      an empty dict runs no iteration and returns None; zero slots divide by
      zero at the first index; a negative number of slots or a single slot
      completes every iteration and returns None; more slots than entries
      reach the short run before any average exists, so `min` fails; otherwise
      the first short run hands back the cheapest complete run's first key
      and mean. */
  function MinTimeRunSpec(hours: real, inD: Rates): Result<Option<Slot>>
  {
    var slots := Slots(hours);
    var r := Reverse(inD);
    if |r| == 0 then Ok(None)
    else if slots == 0 then Err(ZeroDivision)
    else if slots <= 1 then Ok(None)
    else if slots > |r| then Err(EmptyArgument)
    else Ok(Some(Averages(r, slots, |r| - slots + 1)[BestStart(r, slots)]))
  }

  /** Which inputs give which kind of answer. */
  lemma MinTimeRunOutcome(hours: real, inD: Rates)
    ensures MinTimeRunSpec(hours, inD) == Err(ZeroDivision) <==> |inD| > 0 && hours * 2.0 < 1.0 && -1.0 < hours * 2.0
    ensures MinTimeRunSpec(hours, inD) == Err(EmptyArgument) <==> 0 < |inD| < Slots(hours)
    ensures MinTimeRunSpec(hours, inD).Ok? && MinTimeRunSpec(hours, inD).value.Some? <==> 2 <= Slots(hours) <= |inD|
  {
  }

  /** The run returned is a complete run of the reversed dict, keyed by its
      first entry and valued at its mean. */
  lemma MinTimeRunResult(hours: real, inD: Rates)
    requires 2 <= Slots(hours) <= |inD|
    ensures BestStart(Reverse(inD), Slots(hours)) + Slots(hours) <= |inD|
    ensures var w := BestStart(Reverse(inD), Slots(hours));
      MinTimeRunSpec(hours, inD) == Ok(Some(Slot(Reverse(inD)[w].time, Avg(Reverse(inD), w, Slots(hours)))))
  {
  }

  /** No complete run of `slots` consecutive entries is cheaper than the
      chosen one. */
  lemma MinTimeRunBest(hours: real, inD: Rates, v: nat)
    requires 2 <= Slots(hours) <= |inD| && v + Slots(hours) <= |inD|
    ensures BestStart(Reverse(inD), Slots(hours)) + Slots(hours) <= |inD|
    ensures Avg(Reverse(inD), BestStart(Reverse(inD), Slots(hours)), Slots(hours)) <= Avg(Reverse(inD), v, Slots(hours))
  {
    var a := Averages(Reverse(inD), Slots(hours), |inD| - Slots(hours) + 1);
    ExtremeIsFirstBest(Lowest, a);
    assert a[v].price == Avg(Reverse(inD), v, Slots(hours));
  }

  /** Every run met earlier in the reversed scan is strictly dearer: ties go
      to the first run scanned. */
  lemma MinTimeRunFirst(hours: real, inD: Rates, v: nat)
    requires 2 <= Slots(hours) <= |inD| && v < BestStart(Reverse(inD), Slots(hours))
    ensures Avg(Reverse(inD), BestStart(Reverse(inD), Slots(hours)), Slots(hours)) < Avg(Reverse(inD), v, Slots(hours))
  {
    var a := Averages(Reverse(inD), Slots(hours), |inD| - Slots(hours) + 1);
    ExtremeIsFirstBest(Lowest, a);
    assert a[v].price == Avg(Reverse(inD), v, Slots(hours));
  }
}
