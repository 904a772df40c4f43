/** The `Agile` class: its loops over date/rate dicts, each proved to
    compute the function that specifies it. */
module Agile {
  import opened Errors
  import opened OrderedDict
  import opened RateRecords
  import opened Selection
  import opened Requirements
  import opened Runs

  /** The entries among the first m of d whose price is at most the limit, in order. */
  function BelowIn(d: Rates, limit: real, m: nat): Rates
    requires m <= |d|
    decreases m
  {
    if m == 0 then []
    else BelowIn(d, limit, m - 1) + (if d[m - 1].price <= limit then [d[m - 1]] else [])
  }

  /** `get_times_below(in_d, limit)`: the entries priced at or below the limit. */
  function Below(d: Rates, limit: real): Rates
  {
    BelowIn(d, limit, |d|)
  }

  lemma {:induction false} BelowInEntries(d: Rates, limit: real, m: nat)
    requires m <= |d|
    ensures forall s :: s in BelowIn(d, limit, m) <==> s.price <= limit && exists j :: 0 <= j < m && d[j] == s
    decreases m
  {
    if m > 0 {
      BelowInEntries(d, limit, m - 1);
    }
  }

  /** Appending a fresh key to a dict is `d[k] = v` for that key. */
  lemma PutNew(d: Rates, x: Slot)
    requires Distinct(d) && !Has(d, x.time)
    ensures Put(d, x.time, x.price) == d + [x]
    ensures Distinct(d + [x])
  {
    PutDistinct(d, x.time, x.price);
  }

  /** The next entry of d is not yet a key of the filtered prefix. */
  lemma BelowInFresh(d: Rates, limit: real, m: nat)
    requires Distinct(d) && m < |d|
    ensures !Has(BelowIn(d, limit, m), d[m].time)
  {
    DistinctPairs(d);
    BelowInEntries(d, limit, m);
    var b := BelowIn(d, limit, m);
    forall i | 0 <= i < |b| ensures b[i].time != d[m].time {
      assert b[i] in b;
    }
    NotHas(b, d[m].time);
  }

  lemma {:induction false} BelowInDistinct(d: Rates, limit: real, m: nat)
    requires Distinct(d) && m <= |d|
    ensures Distinct(BelowIn(d, limit, m))
    decreases m
  {
    if m > 0 {
      BelowInDistinct(d, limit, m - 1);
      if d[m - 1].price <= limit {
        BelowInFresh(d, limit, m - 1);
        PutNew(BelowIn(d, limit, m - 1), d[m - 1]);
      } else {
        assert BelowIn(d, limit, m - 1) + [] == BelowIn(d, limit, m - 1);
        assert BelowIn(d, limit, m) == BelowIn(d, limit, m - 1);
      }
    }
  }

  /** The result holds exactly the entries of d priced at or below the
      limit, and is a dict when d is. */
  lemma BelowEntries(d: Rates, limit: real)
    ensures forall s :: s in Below(d, limit) <==> s in d && s.price <= limit
    ensures Distinct(d) ==> Distinct(Below(d, limit))
  {
    BelowInEntries(d, limit, |d|);
    if Distinct(d) {
      BelowInDistinct(d, limit, |d|);
    }
  }

  lemma {:induction false} BelowInAppend(a: Rates, b: Rates, limit: real, m: nat)
    requires m <= |b|
    ensures BelowIn(a + b, limit, |a| + m) == Below(a, limit) + BelowIn(b, limit, m)
    decreases m
  {
    if m == 0 {
      assert forall k :: 0 <= k <= |a| ==> BelowIn(a + b, limit, k) == BelowIn(a, limit, k) by {
        forall k | 0 <= k <= |a| ensures BelowIn(a + b, limit, k) == BelowIn(a, limit, k) {
          BelowInPrefix(a, b, limit, k);
        }
      }
    } else {
      BelowInAppend(a, b, limit, m - 1);
      assert (a + b)[|a| + m - 1] == b[m - 1];
    }
  }

  lemma {:induction false} BelowInPrefix(a: Rates, b: Rates, limit: real, k: nat)
    requires k <= |a|
    ensures BelowIn(a + b, limit, k) == BelowIn(a, limit, k)
    decreases k
  {
    if k > 0 {
      BelowInPrefix(a, b, limit, k - 1);
      assert (a + b)[k - 1] == a[k - 1];
    }
  }

  /** The filter keeps the order of the dict: filtering two parts one after
      the other is filtering the whole. */
  lemma BelowConcat(a: Rates, b: Rates, limit: real)
    ensures Below(a + b, limit) == Below(a, limit) + Below(b, limit)
  {
    BelowInAppend(a, b, limit, |b|);
  }

  /** `Agile.get_times_below`, OctopusAgile/Agile.py lines 41-45:
      one pass over the items, copying those
      at or below the limit. */
  method TimesBelow(inD: Rates, limit: real) returns (retD: Rates)
    requires Distinct(inD)
    ensures retD == Below(inD, limit)
  {
    retD := [];
    var i := 0;
    while i < |inD|
      invariant 0 <= i <= |inD|
      invariant retD == BelowIn(inD, limit, i)
    {
      var time, rate := inD[i].time, inD[i].price;
      if rate <= limit {
        BelowInFresh(inD, limit, i);
        BelowInDistinct(inD, limit, i);
        PutNew(retD, inD[i]);
        retD := Put(retD, time, rate);
      }
      i := i + 1;
    }
  }

  /** `Agile.get_rates`, OctopusAgile/Agile.py lines 208-226,
      given the records `get_raw_rates` returns. */
  method GetRates(results: seq<RateRecord>) returns (dateRates: Rates, rateList: seq<real>, lowRateList: seq<real>)
    ensures dateRates == DateRates(results)
    ensures rateList == Prices(results)
    ensures lowRateList == LowPrices(results)
  {
    dateRates, rateList, lowRateList := [], [], [];
    var i := 0;
    while i < |results|
      invariant 0 <= i <= |results|
      invariant dateRates == DateRates(results[..i])
      invariant rateList == Prices(results[..i])
      invariant lowRateList == LowPrices(results[..i])
    {
      var price := results[i].valueIncVat;
      var validFrom := results[i].validFrom;
      assert results[..i + 1][..i] == results[..i];
      dateRates := Put(dateRates, validFrom, price);
      rateList := rateList + [price];
      if price < LowRateLimit {
        lowRateList := lowRateList + [price];
      }
      i := i + 1;
    }
    assert results[..|results|] == results;
  }

  /** `Agile.get_max_times(num, in_d)`, OctopusAgile/Agile.py lines 110-117:
      the same loop as the base
      selection of `get_min_times`, taking `max` instead of `min`; `in_d`
      itself is a value here and stays as it was. */
  method MaxTimes(num: int, inD: Rates) returns (r: Result<Rates>)
    requires Distinct(inD)
    ensures r == Extremes(Highest, num, inD)
  {
    r := TakeExtremes(Highest, num, inD);
  }

  /** `Agile.get_min_times`, OctopusAgile/Agile.py lines 84-87:
      the keys of the selection inside the window. */
  method ScanFilled(retD: Rates, lo: Timestamp, hi: Timestamp) returns (filled: seq<Timestamp>)
    ensures filled == Filled(retD, lo, hi)
  {
    filled := [];
    var i := 0;
    while i < |retD|
      invariant 0 <= i <= |retD|
      invariant filled == FilledIn(retD, lo, hi, i)
    {
      var time := retD[i].time;
      if lo < time < hi {
        filled := filled + [time];
      }
      i := i + 1;
    }
  }

  /** `Agile.get_min_times`, OctopusAgile/Agile.py lines 89-90 and 96-97:
      `del ret_d[k]` for each key in turn. */
  method DeleteAll(retD: Rates, ks: seq<Timestamp>) returns (r: Rates)
    ensures r == DeleteKeys(retD, ks)
  {
    r := retD;
    var j := 0;
    while j < |ks|
      invariant 0 <= j <= |ks|
      invariant r == DeleteKeys(retD, ks[..j])
    {
      assert ks[..j + 1][..j] == ks[..j];
      r := Delete(r, ks[j]);
      j := j + 1;
    }
    assert ks[..|ks|] == ks;
  }

  /** `Agile.get_min_times`, OctopusAgile/Agile.py lines 98-99:
      `ret_d[time] = rate` for each item of `new_mins`. */
  method InsertAll(retD: Rates, es: Rates) returns (r: Rates)
    ensures r == PutAll(retD, es)
  {
    r := retD;
    var j := 0;
    while j < |es|
      invariant 0 <= j <= |es|
      invariant r == PutAll(retD, es[..j])
    {
      assert es[..j + 1][..j] == es[..j];
      r := Put(r, es[j].time, es[j].price);
      j := j + 1;
    }
    assert es[..|es|] == es;
  }

  /** One turn of the requirement loop. */
  lemma RequirementStep(d: Rates, reqs: seq<Requirement>, q: nat, fetch: Fetch)
    requires q < |reqs|
    ensures ApplyRequirements(d, reqs[q..], fetch) ==
      match Repair(d, reqs[q], fetch)
      case Err(e) => Err(e)
      case Ok(d') => ApplyRequirements(d', reqs[q + 1..], fetch)
  {
    assert reqs[q..][0] == reqs[q];
    assert reqs[q..][1..] == reqs[q + 1..];
  }

  /** `Agile.get_min_times(num, in_d, requirements)`,
      OctopusAgile/Agile.py lines 67-100: the base
      selection, then each requirement in turn. */
  method MinTimes(num: int, inD: Rates, reqs: seq<Requirement>, fetch: Fetch) returns (r: Result<Rates>)
    requires Distinct(inD)
    ensures r == MinTimesSpec(num, inD, reqs, fetch)
    decreases |reqs|, 1
  {
    var base := TakeExtremes(Lowest, num, inD);
    if base.Err? {
      return Err(base.error);
    }
    var retD := base.value;
    SelectedDistinct(Lowest, inD, if num < 0 then 0 else num);
    var q := 0;
    while q < |reqs|
      invariant 0 <= q <= |reqs|
      invariant Distinct(retD)
      invariant ApplyRequirements(retD, reqs[q..], fetch) == ApplyRequirements(base.value, reqs, fetch)
    {
      RequirementStep(retD, reqs, q, fetch);
      var step := MeetRequirement(retD, reqs[q], fetch);
      if step.Err? {
        return Err(step.error);
      }
      retD := step.value;
      q := q + 1;
    }
    assert reqs[q..] == [];
    r := Ok(retD);
  }

  /** One pass of the requirement loop of `Agile.get_min_times`,
      OctopusAgile/Agile.py lines 75-99; the nested
      `get_min_times` call for the window's cheapest rates passes no
      requirements. */
  method MeetRequirement(retD: Rates, req: Requirement, fetch: Fetch) returns (r: Result<Rates>)
    requires Distinct(retD)
    ensures r == Repair(retD, req, fetch)
    ensures r.Ok? ==> Distinct(r.value)
    decreases 1, 0
  {
    RepairOutcome(retD, req, fetch);
    var filled := ScanFilled(retD, req.timeFrom, req.timeTo);
    if |filled| >= req.slots {
      return Ok(retD);
    }
    var d := DeleteAll(retD, filled);
    ClearedShape(retD, req);
    var newRates, _, _ := GetRates(fetch(req.timeFrom, req.timeTo));
    DateRatesKeys(fetch(req.timeFrom, req.timeTo));
    var newMins := MinTimes(req.slots, newRates, [], fetch);
    MinTimesShape(req.slots, newRates, [], fetch);
    if newMins.Err? {
      return Err(newMins.error);
    }
    var removeList := TakeExtremes(Highest, req.slots - |filled|, d);
    if removeList.Err? {
      return Err(removeList.error);
    }
    d := DeleteAll(d, Keys(removeList.value));
    d := InsertAll(d, newMins.value);
    RepairHoldsNewMins(retD, req, fetch, newMins.value, removeList.value);
    r := Ok(d);
  }

  /** `Agile.get_min_time_run(hours, in_d)`, OctopusAgile/Agile.py lines 127-142:
      for each index of the
      reversed dict, collect the next `slots` prices; the first index whose
      run runs past the end returns the cheapest average so far. */
  method MinTimeRun(hours: real, inD: Rates) returns (r: Result<Option<Slot>>)
    requires Distinct(inD)
    ensures r == MinTimeRunSpec(hours, inD)
  {
    var slots := Trunc(hours * 2.0);
    var d := Reverse(inD);
    ReverseDistinct(inD);
    var keys := Keys(d);
    var avgs: Rates := [];
    var index := 0;
    while index < |keys|
      invariant 0 <= index <= |keys|
      invariant 0 < slots && 0 < index ==> index + slots <= |d| + 1
      invariant 0 < slots ==> avgs == Averages(d, slots, index)
      invariant slots == 0 ==> index == 0
    {
      var thisAvg: seq<real> := [];
      var offset := 0;
      while offset < slots
        invariant 0 <= offset && (0 <= slots ==> offset <= slots)
        invariant index + offset <= |keys|
        invariant thisAvg == WindowPrices(d, index, offset)
      {
        if index + offset < |keys| {
          LookupKey(d, index + offset);
          thisAvg := thisAvg + [d[KeyIndex(d, keys[index + offset])].price];
        } else {
          RunEnds(hours, inD, index);
          if |avgs| == 0 {
            return Err(EmptyArgument);
          }
          AveragesDistinct(d, slots, index);
          var minKey := avgs[Extreme(Lowest, avgs)].time;
          KeyIndexOf(avgs, Extreme(Lowest, avgs));
          return Ok(Some(Slot(minKey, avgs[KeyIndex(avgs, minKey)].price)));
        }
        offset := offset + 1;
      }
      if slots == 0 {
        RunOutcomes(hours, inD);
        return Err(ZeroDivision);
      }
      if 0 < slots {
        AveragesFresh(d, slots, index);
      }
      avgs := Put(avgs, keys[index], Sum(thisAvg) / (slots as real));
      index := index + 1;
    }
    RunOutcomes(hours, inD);
    r := Ok(None);
  }

  /** `d[keys[j]]` is the entry at position j of the dict. */
  lemma LookupKey(d: Rates, j: nat)
    requires Distinct(d) && j < |d|
    ensures Keys(d)[j] == d[j].time && KeyIndex(d, Keys(d)[j]) == j
  {
    KeyIndexOf(d, j);
  }

  /** The first index whose run is short decides the answer. */
  lemma RunEnds(hours: real, inD: Rates, index: nat)
    requires 0 < Slots(hours) && index < |inD| < index + Slots(hours)
    requires 0 < index ==> index + Slots(hours) <= |inD| + 1
    ensures index == 0 ==> MinTimeRunSpec(hours, inD) == Err(EmptyArgument)
    ensures 0 < index ==> Averages(Reverse(inD), Slots(hours), index) != []
    ensures 0 < index ==> (MinTimeRunSpec(hours, inD) ==
      Ok(Some(Averages(Reverse(inD), Slots(hours), index)[Extreme(Lowest, Averages(Reverse(inD), Slots(hours), index))])))
  {
  }

  /** The answers when no short run is reached. */
  lemma RunOutcomes(hours: real, inD: Rates)
    ensures |inD| == 0 || Slots(hours) < 0 || Slots(hours) == 1 ==> MinTimeRunSpec(hours, inD) == Ok(None)
    ensures 0 < |inD| && Slots(hours) == 0 ==> MinTimeRunSpec(hours, inD) == Err(ZeroDivision)
  {
  }

  /** Recording the next complete run's average appends it to `avgs`. */
  lemma AveragesFresh(d: Rates, slots: nat, index: nat)
    requires Distinct(d) && 0 < slots && index + slots <= |d|
    ensures Put(Averages(d, slots, index), d[index].time, Avg(d, index, slots)) == Averages(d, slots, index + 1)
  {
    var a := Averages(d, slots, index);
    var x := Slot(d[index].time, Avg(d, index, slots));
    assert !Has(a, x.time) by {
      DistinctPairs(d);
      forall j | 0 <= j < |a| ensures a[j].time != x.time {
        assert a[j].time == d[j].time;
      }
      NotHas(a, x.time);
    }
    assert Put(a, x.time, x.price) == a + [x];
    var b := Averages(d, slots, index + 1);
    assert forall j :: 0 <= j < index + 1 ==> (a + [x])[j] == b[j];
  }
}
