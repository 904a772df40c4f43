/** The `Outgoing` class: its `get_rates` loop and the three getters for the
    previous, current and next half-hour rate. The `Agile` class has the same
    getters, and they are modelled here once. */
module Outgoing {
  import opened Errors
  import opened OrderedDict
  import opened RateRecords
  import opened Clock

  /** `get_rates`, OctopusAgile/Outgoing.py lines 72-84,
      given the records `get_raw_rates` returns. */
  method GetRates(results: seq<RateRecord>) returns (dateRates: Rates, rateList: seq<real>)
    ensures dateRates == DateRates(results)
    ensures rateList == Prices(results)
  {
    dateRates, rateList := [], [];
    var i := 0;
    while i < |results|
      invariant 0 <= i <= |results|
      invariant dateRates == DateRates(results[..i])
      invariant rateList == Prices(results[..i])
    {
      var price := results[i].valueIncVat;
      var validFrom := results[i].validFrom;
      assert results[..i + 1][..i] == results[..i];
      dateRates := Put(dateRates, validFrom, price);
      rateList := rateList + [price];
      i := i + 1;
    }
    assert results[..|results|] == results;
  }

  /** The `period_from` and `period_to` of a request. */
  datatype Period = Period(from: Timestamp, to: Timestamp)

  /** `get_previous_rate`, OctopusAgile/Outgoing.py lines 91-93: from
      `now - 30 min` to `round_time(now)`, where `now = round_time(utcnow())`;
      the half hour before the one holding the current time. */
  function PreviousPeriod(utcNow: DateTime): (p: Period)
    ensures Valid(utcNow) ==> p.to == Instant(utcNow) - Instant(utcNow) % HalfHour && p.from == p.to - HalfHour
  {
    var now := RoundTime(utcNow);
    assert Valid(utcNow) ==> Instant(now) == Instant(utcNow) - Instant(utcNow) % HalfHour by {
      if Valid(utcNow) { RoundTimeFloor(utcNow); }
    }
    Period(Instant(now) - HalfHour, Instant(RoundTime(now)))
  }

  /** `get_current_rate`, OctopusAgile/Outgoing.py lines 102-104: from
      `round_time(now)` to `now + 30 min`; the half hour holding the current time. */
  function CurrentPeriod(utcNow: DateTime): (p: Period)
    ensures Valid(utcNow) ==> p.from == Instant(utcNow) - Instant(utcNow) % HalfHour && p.to == p.from + HalfHour
  {
    var now := RoundTime(utcNow);
    assert Valid(utcNow) ==> Instant(now) == Instant(utcNow) - Instant(utcNow) % HalfHour by {
      if Valid(utcNow) { RoundTimeFloor(utcNow); }
    }
    Period(Instant(RoundTime(now)), Instant(now) + HalfHour)
  }

  /** `get_next_rate`, OctopusAgile/Outgoing.py lines 113-117: from
      `round_time(now) + 30 min` to `now + 60 min`; the half hour after the
      one holding the current time. */
  function NextPeriod(utcNow: DateTime): (p: Period)
    ensures Valid(utcNow) ==> p.from == Instant(utcNow) - Instant(utcNow) % HalfHour + HalfHour && p.to == p.from + HalfHour
  {
    var now := RoundTime(utcNow);
    assert Valid(utcNow) ==> Instant(now) == Instant(utcNow) - Instant(utcNow) % HalfHour by {
      if Valid(utcNow) { RoundTimeFloor(utcNow); }
    }
    Period(Instant(RoundTime(now)) + HalfHour, Instant(now) + 2 * HalfHour)
  }

  /** `date_rates[next(iter(date_rates))]`: the price of the first key;
      `next` raises StopIteration on an empty dict. */
  function FirstRate(d: Rates): Result<real>
  {
    if |d| == 0 then Err(NoNextItem) else Ok(d[KeyIndex(d, d[0].time)].price)
  }

  /** The price a getter reads from non-empty records: that of the last record
      starting when the first record does. */
  function FirstKeyPrice(rs: seq<RateRecord>): real
    requires |rs| > 0
  {
    var i := LastOf(rs, rs[0].validFrom);
    if 0 <= i then rs[i].valueIncVat else rs[0].valueIncVat
  }

  /** What a getter returns for the records of its period. */
  function RateFor(fetch: Fetch, p: Period): Result<real>
  {
    FirstRate(DateRates(fetch(p.from, p.to)))
  }

  /** `get_previous_rate`, OctopusAgile/Outgoing.py lines 91-95, with
      `utcnow()` passed in: StopIteration when the API has no record for the
      previous half hour, otherwise the price `date_rates` keeps for its
      first key. */
  function PreviousRate(fetch: Fetch, utcNow: DateTime): (r: Result<real>)
    ensures var rs := fetch(PreviousPeriod(utcNow).from, PreviousPeriod(utcNow).to);
      (r == Err(NoNextItem) <==> |rs| == 0) && (|rs| > 0 ==> r == Ok(FirstKeyPrice(rs)))
  {
    RateForValue(fetch, PreviousPeriod(utcNow));
    RateFor(fetch, PreviousPeriod(utcNow))
  }

  /** `get_current_rate`, OctopusAgile/Outgoing.py lines 102-106. */
  function CurrentRate(fetch: Fetch, utcNow: DateTime): (r: Result<real>)
    ensures var rs := fetch(CurrentPeriod(utcNow).from, CurrentPeriod(utcNow).to);
      (r == Err(NoNextItem) <==> |rs| == 0) && (|rs| > 0 ==> r == Ok(FirstKeyPrice(rs)))
  {
    RateForValue(fetch, CurrentPeriod(utcNow));
    RateFor(fetch, CurrentPeriod(utcNow))
  }

  /** `get_next_rate`, OctopusAgile/Outgoing.py lines 113-119. */
  function NextRate(fetch: Fetch, utcNow: DateTime): (r: Result<real>)
    ensures var rs := fetch(NextPeriod(utcNow).from, NextPeriod(utcNow).to);
      (r == Err(NoNextItem) <==> |rs| == 0) && (|rs| > 0 ==> r == Ok(FirstKeyPrice(rs)))
  {
    RateForValue(fetch, NextPeriod(utcNow));
    RateFor(fetch, NextPeriod(utcNow))
  }

  /** The three periods are the half hour before the one holding the current
      time, that half hour, and the one after: adjacent, thirty minutes
      long, on the half-hour grid, the current one holding the time. */
  lemma PeriodsTile(utcNow: DateTime)
    requires Valid(utcNow)
    ensures PreviousPeriod(utcNow).to == CurrentPeriod(utcNow).from
    ensures CurrentPeriod(utcNow).to == NextPeriod(utcNow).from
    ensures PreviousPeriod(utcNow).to - PreviousPeriod(utcNow).from == HalfHour
    ensures CurrentPeriod(utcNow).to - CurrentPeriod(utcNow).from == HalfHour
    ensures NextPeriod(utcNow).to - NextPeriod(utcNow).from == HalfHour
    ensures CurrentPeriod(utcNow).from == Instant(utcNow) - Instant(utcNow) % HalfHour
    ensures CurrentPeriod(utcNow).from <= Instant(utcNow) < CurrentPeriod(utcNow).to
  {
    RoundTimeIdempotent(utcNow);
    RoundTimeFloor(utcNow);
    RoundTimeBounds(utcNow);
  }

  /** A getter fails exactly when the API returns no records for its period;
      otherwise it returns the price of the last record that starts when the
      first record does (later records overwrite earlier ones in the dict). */
  lemma RateForValue(fetch: Fetch, p: Period)
    ensures RateFor(fetch, p) == Err(NoNextItem) <==> |fetch(p.from, p.to)| == 0
    ensures |fetch(p.from, p.to)| > 0 ==>
      0 <= LastOf(fetch(p.from, p.to), fetch(p.from, p.to)[0].validFrom) &&
      RateFor(fetch, p) == Ok(fetch(p.from, p.to)[LastOf(fetch(p.from, p.to), fetch(p.from, p.to)[0].validFrom)].valueIncVat) &&
      RateFor(fetch, p) == Ok(FirstKeyPrice(fetch(p.from, p.to)))
  {
    var rs := fetch(p.from, p.to);
    DateRatesEmpty(rs);
    if |rs| > 0 {
      DateRatesFirst(rs);
      KeyIndexFirst(DateRates(rs), DateRates(rs)[0].time, 0);
    }
  }
}
