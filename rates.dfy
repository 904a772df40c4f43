/** The records the rates API returns, and the dict and lists that
    `get_rates` builds from them. */
module RateRecords {
  import opened OrderedDict

  /** One element of the API's `results`: `valid_from`, `valid_to` and
      `value_inc_vat`. */
  datatype RateRecord = RateRecord(validFrom: Timestamp, validTo: Timestamp, valueIncVat: real)

  /** The rates API behind `get_raw_rates(date_from, date_to)`: the records
      it returns for a period. */
  type Fetch = (Timestamp, Timestamp) -> seq<RateRecord>

  /** A price below this goes into `low_rate_list`. */
  const LowRateLimit: real := 15.0

  /** `date_rates`: `date_rates[valid_from] = value_inc_vat` for each record in order. */
  function DateRates(rs: seq<RateRecord>): Rates
    decreases |rs|
  {
    if |rs| == 0 then []
    else Put(DateRates(rs[..|rs| - 1]), rs[|rs| - 1].validFrom, rs[|rs| - 1].valueIncVat)
  }

  /** `rate_list`: every price, in the order of the records. */
  function Prices(rs: seq<RateRecord>): (ps: seq<real>)
    ensures |ps| == |rs|
  {
    seq(|rs|, i requires 0 <= i < |rs| => rs[i].valueIncVat)
  }

  /** `low_rate_list`: the prices below the limit, appended as the records go by. */
  function LowPrices(rs: seq<RateRecord>): (ps: seq<real>)
    decreases |rs|
  {
    if |rs| == 0 then []
    else
      var p := rs[|rs| - 1].valueIncVat;
      LowPrices(rs[..|rs| - 1]) + (if p < LowRateLimit then [p] else [])
  }

  /** The position of the first record starting at t, or |rs| when none does. */
  function FirstOf(rs: seq<RateRecord>, t: Timestamp): (i: nat)
    ensures i <= |rs|
    ensures i < |rs| ==> rs[i].validFrom == t
    ensures forall j :: 0 <= j < i ==> rs[j].validFrom != t
    decreases |rs|
  {
    if |rs| == 0 then 0
    else
      var f := FirstOf(rs[..|rs| - 1], t);
      if f < |rs| - 1 then f
      else if rs[|rs| - 1].validFrom == t then |rs| - 1
      else |rs|
  }

  /** The position of the last record starting at t, or -1 when none does. */
  function LastOf(rs: seq<RateRecord>, t: Timestamp): (i: int)
    ensures -1 <= i < |rs|
    ensures 0 <= i ==> rs[i].validFrom == t
    ensures forall j :: i < j < |rs| ==> rs[j].validFrom != t
    decreases |rs|
  {
    if |rs| == 0 then -1
    else if rs[|rs| - 1].validFrom == t then |rs| - 1
    else LastOf(rs[..|rs| - 1], t)
  }

  /** One prefix step of FirstOf and LastOf. */
  lemma OfSnoc(rs: seq<RateRecord>, t: Timestamp)
    requires |rs| > 0
    ensures FirstOf(rs[..|rs| - 1], t) < |rs| - 1 ==> FirstOf(rs, t) == FirstOf(rs[..|rs| - 1], t)
    ensures FirstOf(rs[..|rs| - 1], t) == |rs| - 1 && rs[|rs| - 1].validFrom == t ==> FirstOf(rs, t) == |rs| - 1
    ensures rs[|rs| - 1].validFrom != t ==> LastOf(rs, t) == LastOf(rs[..|rs| - 1], t)
  {
  }

  /** `date_rates` is a dict with one key per distinct `valid_from`. */
  lemma {:induction false} DateRatesKeys(rs: seq<RateRecord>)
    ensures Distinct(DateRates(rs))
    ensures forall t :: Has(DateRates(rs), t) <==> FirstOf(rs, t) < |rs|
    decreases |rs|
  {
    if |rs| > 0 {
      var init := rs[..|rs| - 1];
      var x := rs[|rs| - 1];
      DateRatesKeys(init);
      PutDistinct(DateRates(init), x.validFrom, x.valueIncVat);
      forall t ensures Has(DateRates(rs), t) <==> FirstOf(rs, t) < |rs| {
        PutKeyIndex(DateRates(init), x.validFrom, x.valueIncVat, t);
        OfSnoc(rs, t);
      }
    }
  }

  /** A later record with the same `valid_from` overwrites the price: each
      key holds the price of the last record starting then. */
  lemma {:induction false} DateRatesPrice(rs: seq<RateRecord>, t: Timestamp)
    requires FirstOf(rs, t) < |rs|
    ensures Has(DateRates(rs), t) && 0 <= LastOf(rs, t)
    ensures DateRates(rs)[KeyIndex(DateRates(rs), t)].price == rs[LastOf(rs, t)].valueIncVat
    decreases |rs|
  {
    var init := rs[..|rs| - 1];
    var x := rs[|rs| - 1];
    DateRatesKeys(rs);
    PutKeyIndex(DateRates(init), x.validFrom, x.valueIncVat, t);
    OfSnoc(rs, t);
    if x.validFrom == t {
      PutAt(DateRates(init), x.validFrom, x.valueIncVat, KeyIndex(DateRates(rs), t));
    } else {
      DateRatesPrice(init, t);
      DateRatesKeys(init);
      PutAt(DateRates(init), x.validFrom, x.valueIncVat, KeyIndex(DateRates(rs), t));
    }
  }

  /** A key keeps the position it got when it was first seen, so the keys of
      `date_rates` are in the order in which their first records arrive. */
  lemma {:induction false} DateRatesOrder(rs: seq<RateRecord>, a: Timestamp, b: Timestamp)
    requires FirstOf(rs, a) < |rs| && FirstOf(rs, b) < |rs|
    ensures KeyIndex(DateRates(rs), a) < KeyIndex(DateRates(rs), b) <==> FirstOf(rs, a) < FirstOf(rs, b)
    decreases |rs|
  {
    var init := rs[..|rs| - 1];
    var x := rs[|rs| - 1];
    var d := DateRates(init);
    DateRatesKeys(init);
    PutKeyIndex(d, x.validFrom, x.valueIncVat, a);
    PutKeyIndex(d, x.validFrom, x.valueIncVat, b);
    OfSnoc(rs, a);
    OfSnoc(rs, b);
    if FirstOf(init, a) < |init| && FirstOf(init, b) < |init| {
      DateRatesOrder(init, a, b);
    }
  }

  /** The first key of `date_rates` is the first record's `valid_from`. */
  lemma DateRatesFirst(rs: seq<RateRecord>)
    requires |rs| > 0
    ensures |DateRates(rs)| > 0 && DateRates(rs)[0].time == rs[0].validFrom
    ensures 0 <= LastOf(rs, rs[0].validFrom)
    ensures DateRates(rs)[0].price == rs[LastOf(rs, rs[0].validFrom)].valueIncVat
  {
    var t := rs[0].validFrom;
    var d := DateRates(rs);
    DateRatesKeys(rs);
    DateRatesPrice(rs, t);
    if KeyIndex(d, t) != 0 {
      var u := d[0].time;
      KeyIndexOf(d, 0);
      DateRatesOrder(rs, u, t);
    }
  }

  /** `date_rates` is empty exactly when there are no records. */
  lemma DateRatesEmpty(rs: seq<RateRecord>)
    ensures |DateRates(rs)| == 0 <==> |rs| == 0
  {
    if |rs| > 0 {
      DateRatesFirst(rs);
    }
  }

  /** `low_rate_list` holds exactly the prices below the limit. */
  lemma {:induction false} LowPricesMembers(rs: seq<RateRecord>)
    ensures forall p :: p in LowPrices(rs) <==> p in Prices(rs) && p < LowRateLimit
    decreases |rs|
  {
    if |rs| > 0 {
      var init := rs[..|rs| - 1];
      LowPricesMembers(init);
      assert Prices(rs) == Prices(init) + [rs[|rs| - 1].valueIncVat];
    }
  }

  /** `low_rate_list` keeps the order of the records: the list for two
      batches of records is the first batch's list followed by the second's. */
  lemma {:induction false} LowPricesAppend(a: seq<RateRecord>, b: seq<RateRecord>)
    ensures LowPrices(a + b) == LowPrices(a) + LowPrices(b)
    decreases |b|
  {
    if |b| > 0 {
      var init := b[..|b| - 1];
      var p := b[|b| - 1].valueIncVat;
      var tail := if p < LowRateLimit then [p] else [];
      assert (a + b)[..|a + b| - 1] == a + init;
      assert (a + b)[|a + b| - 1] == b[|b| - 1];
      LowPricesAppend(a, init);
      calc {
        LowPrices(a + b);
        LowPrices(a + init) + tail;
        LowPrices(a) + LowPrices(init) + tail;
        LowPrices(a) + (LowPrices(init) + tail);
      }
    } else {
      assert a + b == a;
    }
  }
}
