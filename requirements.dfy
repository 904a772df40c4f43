/** The requirement pass of `get_min_times`: after the base selection, each
    requirement asks for at least `slots` chosen periods starting strictly
    between `time_from` and `time_to`; when too few are there, the chosen
    periods in that window are dropped, the cheapest `slots` periods of the
    window are fetched, and the dearest remaining choices make room for them. */
module Requirements {
  import opened Errors
  import opened OrderedDict
  import opened RateRecords
  import opened Selection

  /** One element of `requirements`. */
  datatype Requirement = Requirement(slots: int, timeFrom: Timestamp, timeTo: Timestamp)

  /** Strictly inside the open interval (lo, hi), as `after_time < dttime < before_time`. */
  predicate Inside(t: Timestamp, lo: Timestamp, hi: Timestamp)
  {
    lo < t < hi
  }

  /** `slots_filled` after scanning the first m entries of d. */
  function FilledIn(d: Rates, lo: Timestamp, hi: Timestamp, m: nat): seq<Timestamp>
    requires m <= |d|
    decreases m
  {
    if m == 0 then []
    else FilledIn(d, lo, hi, m - 1) + (if Inside(d[m - 1].time, lo, hi) then [d[m - 1].time] else [])
  }

  /** `slots_filled`: the keys of d inside the window, in dict order. */
  function Filled(d: Rates, lo: Timestamp, hi: Timestamp): seq<Timestamp>
  {
    FilledIn(d, lo, hi, |d|)
  }

  /** The keys collected from the first m entries: once each, exactly those
      of the first m entries lying inside the window. */
  lemma {:induction false} FilledInKeys(d: Rates, lo: Timestamp, hi: Timestamp, m: nat)
    requires m <= |d| && Distinct(d)
    ensures forall t :: t in FilledIn(d, lo, hi, m) <==> Inside(t, lo, hi) && exists j :: 0 <= j < m && d[j].time == t
    ensures forall a, b :: 0 <= a < b < |FilledIn(d, lo, hi, m)| ==> FilledIn(d, lo, hi, m)[a] != FilledIn(d, lo, hi, m)[b]
    decreases m
  {
    if m > 0 {
      DistinctPairs(d);
      FilledInKeys(d, lo, hi, m - 1);
      var prev := FilledIn(d, lo, hi, m - 1);
      forall t | t in prev ensures t != d[m - 1].time {
        var j :| 0 <= j < m - 1 && d[j].time == t;
      }
    }
  }

  /** `slots_filled` holds, once each, exactly the keys inside the window. */
  lemma FilledKeys(d: Rates, lo: Timestamp, hi: Timestamp)
    requires Distinct(d)
    ensures forall t :: t in Filled(d, lo, hi) <==> Has(d, t) && Inside(t, lo, hi)
    ensures forall a, b :: 0 <= a < b < |Filled(d, lo, hi)| ==> Filled(d, lo, hi)[a] != Filled(d, lo, hi)[b]
  {
    DistinctPairs(d);
    FilledInKeys(d, lo, hi, |d|);
    forall t ensures Has(d, t) <==> exists j :: 0 <= j < |d| && d[j].time == t {
      if Has(d, t) {
        assert d[KeyIndex(d, t)].time == t;
      } else {
        forall j | 0 <= j < |d| ensures d[j].time != t {
          Absent(d, t, j);
        }
      }
    }
  }

  /** Every rate of the window, as `new_rates["date_rates"]`: what the API
      returns for the requirement's window, turned into a dict. */
  function WindowRates(req: Requirement, fetch: Fetch): Rates
  {
    DateRates(fetch(req.timeFrom, req.timeTo))
  }

  /** The selection after `del ret_d[slot]` for each filled slot. */
  function Cleared(d: Rates, req: Requirement): Rates
  {
    DeleteKeys(d, Filled(d, req.timeFrom, req.timeTo))
  }

  /** One requirement applied to the selection d, as `Agile.get_min_times` does it
      (OctopusAgile/Agile.py lines 75-99):
      nothing changes when the window already holds enough choices;
      otherwise the filled slots are dropped, `new_mins` is the base
      selection of `slots` entries from the window's rates (`get_min_times`
      with no requirements), `remove_list` the `slots - len(slots_filled)`
      dearest remaining choices; these are deleted and `new_mins` inserted.
      Either selection fails with ValueError when it runs out of entries. */
  function Repair(d: Rates, req: Requirement, fetch: Fetch): Result<Rates>
  {
    var filled := Filled(d, req.timeFrom, req.timeTo);
    if |filled| >= req.slots then Ok(d)
    else
      match Extremes(Lowest, req.slots, WindowRates(req, fetch))
      case Err(e) => Err(e)
      case Ok(newMins) =>
        match Extremes(Highest, req.slots - |filled|, Cleared(d, req))
        case Err(e) => Err(e)
        case Ok(removeList) => Ok(PutAll(DeleteKeys(Cleared(d, req), Keys(removeList)), newMins))
  }

  /** `for requirement in requirements`, in list order, stopping at the first failure. */
  function ApplyRequirements(d: Rates, reqs: seq<Requirement>, fetch: Fetch): Result<Rates>
    decreases |reqs|
  {
    if |reqs| == 0 then Ok(d)
    else
      match Repair(d, reqs[0], fetch)
      case Err(e) => Err(e)
      case Ok(d') => ApplyRequirements(d', reqs[1..], fetch)
  }

  /** `get_min_times(num, in_d, requirements)`: the base selection, then the requirements. */
  function MinTimesSpec(num: int, d: Rates, reqs: seq<Requirement>, fetch: Fetch): Result<Rates>
  {
    match Extremes(Lowest, num, d)
    case Err(e) => Err(e)
    case Ok(base) => ApplyRequirements(base, reqs, fetch)
  }

  /** Dropping the filled slots removes exactly them. */
  lemma ClearedShape(d: Rates, req: Requirement)
    requires Distinct(d)
    ensures Distinct(Cleared(d, req))
    ensures |Cleared(d, req)| == |d| - |Filled(d, req.timeFrom, req.timeTo)|
    ensures forall s :: s in Cleared(d, req) <==> s in d && !Inside(s.time, req.timeFrom, req.timeTo)
  {
    var filled := Filled(d, req.timeFrom, req.timeTo);
    FilledKeys(d, req.timeFrom, req.timeTo);
    DeleteKeysEntries(d, filled);
    DeleteKeysSize(d, filled);
    forall s | s in d ensures s.time in filled <==> Inside(s.time, req.timeFrom, req.timeTo) {
      HasEntry(d, s);
    }
  }

  /** A requirement the selection already meets changes nothing; one it does
      not meet fails exactly when the window offers fewer than `slots` rates
      or the selection itself holds fewer than `slots` entries. */
  lemma RepairOutcome(d: Rates, req: Requirement, fetch: Fetch)
    requires Distinct(d)
    ensures |Filled(d, req.timeFrom, req.timeTo)| >= req.slots ==> Repair(d, req, fetch) == Ok(d)
    ensures Repair(d, req, fetch).Err? <==>
      |Filled(d, req.timeFrom, req.timeTo)| < req.slots && (req.slots > |WindowRates(req, fetch)| || req.slots > |d|)
    ensures Repair(d, req, fetch).Err? ==> Repair(d, req, fetch).error == EmptyArgument
  {
    ClearedShape(d, req);
  }

  /** The value of a repair that fires, given its two selections. */
  lemma RepairFires(d: Rates, req: Requirement, fetch: Fetch, newMins: Rates, evicted: Rates)
    requires |Filled(d, req.timeFrom, req.timeTo)| < req.slots
    requires Extremes(Lowest, req.slots, WindowRates(req, fetch)) == Ok(newMins)
    requires Extremes(Highest, req.slots - |Filled(d, req.timeFrom, req.timeTo)|, Cleared(d, req)) == Ok(evicted)
    ensures Repair(d, req, fetch) == Ok(PutAll(DeleteKeys(Cleared(d, req), Keys(evicted)), newMins))
  {
  }

  /** `remove_list` holds entries of c costing at least as much as every
      entry of c it leaves out. */
  lemma EvictedRanked(c: Rates, n: int, evicted: Rates)
    requires Distinct(c) && Extremes(Highest, n, c) == Ok(evicted)
    ensures Distinct(evicted)
    ensures forall e :: e in evicted ==> e in c
    ensures forall e, u :: e in evicted && u in c && !Has(evicted, u.time) ==> e.price >= u.price
  {
    var m := if n < 0 then 0 else n;
    SelectedEntries(Highest, c, m);
    SelectedRanked(Highest, c, m);
    forall e, u | e in evicted && u in c && !Has(evicted, u.time) ensures e.price >= u.price {
      var i :| 0 <= i < m && evicted[i] == e;
    }
  }

  /** Deleting the keys of `remove_list` removes exactly its entries. */
  lemma EvictedGone(c: Rates, evicted: Rates)
    requires Distinct(c) && Distinct(evicted)
    requires forall e :: e in evicted ==> e in c
    ensures Distinct(DeleteKeys(c, Keys(evicted)))
    ensures forall s :: s in DeleteKeys(c, Keys(evicted)) <==> s in c && !Has(evicted, s.time)
    ensures |DeleteKeys(c, Keys(evicted))| == |c| - |evicted|
  {
    forall t ensures t in Keys(evicted) <==> Has(evicted, t) {
      KeysHas(evicted, t);
    }
    DeleteKeysEntries(c, Keys(evicted));
    DistinctPairs(evicted);
    forall t | t in Keys(evicted) ensures Has(c, t) {
      var s :| s in evicted && s.time == t;
      HasEntry(c, s);
    }
    DeleteKeysSize(c, Keys(evicted));
  }

  /** What a repair that fires leaves: the new cheapest window rates, plus the
      old choices outside the window that were neither evicted nor
      overwritten; every evicted choice lies outside the window and costs at
      least as much as every kept one outside it; and the size drops by the
      number of new keys that were already chosen. */
  lemma RepairEntries(d: Rates, req: Requirement, fetch: Fetch, newMins: Rates, evicted: Rates)
    requires Distinct(d) && |Filled(d, req.timeFrom, req.timeTo)| < req.slots
    requires Extremes(Lowest, req.slots, WindowRates(req, fetch)) == Ok(newMins)
    requires Extremes(Highest, req.slots - |Filled(d, req.timeFrom, req.timeTo)|, Cleared(d, req)) == Ok(evicted)
    ensures Repair(d, req, fetch).Ok? && Distinct(Repair(d, req, fetch).value)
    ensures forall s :: s in Repair(d, req, fetch).value <==>
      s in newMins || (s in d && !Inside(s.time, req.timeFrom, req.timeTo) && !Has(evicted, s.time) && !Has(newMins, s.time))
    ensures forall e :: e in evicted ==> e in d && !Inside(e.time, req.timeFrom, req.timeTo)
    ensures forall e, u :: e in evicted && u in d && !Inside(u.time, req.timeFrom, req.timeTo) && !Has(evicted, u.time) ==> e.price >= u.price
    ensures |Repair(d, req, fetch).value| + CountPresent(newMins, DeleteKeys(Cleared(d, req), Keys(evicted))) == |d|
  {
    var c := Cleared(d, req);
    var kept := DeleteKeys(c, Keys(evicted));
    RepairFires(d, req, fetch, newMins, evicted);
    ClearedShape(d, req);
    DateRatesKeys(fetch(req.timeFrom, req.timeTo));
    SelectedEntries(Lowest, WindowRates(req, fetch), req.slots);
    EvictedRanked(c, req.slots - |Filled(d, req.timeFrom, req.timeTo)|, evicted);
    EvictedGone(c, evicted);
    PutAllEntries(kept, newMins);
    PutAllSize(kept, newMins);
  }

  /** A repair that fires keeps a dict and holds all of `new_mins`. */
  lemma RepairHoldsNewMins(d: Rates, req: Requirement, fetch: Fetch, newMins: Rates, evicted: Rates)
    requires Distinct(d) && |Filled(d, req.timeFrom, req.timeTo)| < req.slots
    requires Extremes(Lowest, req.slots, WindowRates(req, fetch)) == Ok(newMins)
    requires Extremes(Highest, req.slots - |Filled(d, req.timeFrom, req.timeTo)|, Cleared(d, req)) == Ok(evicted)
    ensures Repair(d, req, fetch) == Ok(PutAll(DeleteKeys(Cleared(d, req), Keys(evicted)), newMins))
    ensures Distinct(PutAll(DeleteKeys(Cleared(d, req), Keys(evicted)), newMins))
    ensures forall s :: s in newMins ==> s in PutAll(DeleteKeys(Cleared(d, req), Keys(evicted)), newMins)
  {
    RepairEntries(d, req, fetch, newMins, evicted);
  }

  /** When the API keeps to the window, so does `new_mins`. */
  lemma NewMinsInside(req: Requirement, fetch: Fetch, newMins: Rates)
    requires 0 <= req.slots && Extremes(Lowest, req.slots, WindowRates(req, fetch)) == Ok(newMins)
    requires forall x :: x in fetch(req.timeFrom, req.timeTo) ==> Inside(x.validFrom, req.timeFrom, req.timeTo)
    ensures Distinct(newMins) && |newMins| == req.slots
    ensures forall s :: s in newMins ==> Inside(s.time, req.timeFrom, req.timeTo)
  {
    var rs := fetch(req.timeFrom, req.timeTo);
    var w := WindowRates(req, fetch);
    DateRatesKeys(rs);
    SelectedEntries(Lowest, w, req.slots);
    forall s | s in newMins ensures Inside(s.time, req.timeFrom, req.timeTo) {
      HasEntry(w, s);
      assert rs[FirstOf(rs, s.time)] in rs;
    }
  }

  /** A set holding each element of a repetition-free sequence has its size. */
  lemma {:induction false} KeySetSize(ks: seq<Timestamp>)
    requires forall a, b :: 0 <= a < b < |ks| ==> ks[a] != ks[b]
    ensures |set t | t in ks| == |ks|
    decreases |ks|
  {
    if |ks| > 0 {
      var init := ks[..|ks| - 1];
      KeySetSize(init);
      assert (set t | t in ks) == (set t | t in init) + {ks[|ks| - 1]};
      assert ks[|ks| - 1] !in (set t | t in init);
    }
  }

  /** Any repetition-free list of keys of d inside the window is no longer
      than `slots_filled`. */
  lemma FilledAtLeast(d: Rates, lo: Timestamp, hi: Timestamp, ks: seq<Timestamp>)
    requires Distinct(d)
    requires forall a, b :: 0 <= a < b < |ks| ==> ks[a] != ks[b]
    requires forall t :: t in ks ==> Has(d, t) && Inside(t, lo, hi)
    ensures |ks| <= |Filled(d, lo, hi)|
  {
    var f := Filled(d, lo, hi);
    FilledKeys(d, lo, hi);
    KeySetSize(ks);
    KeySetSize(f);
    var sk := set t | t in ks;
    var sf := set t | t in f;
    assert sk <= sf;
    assert sf == sk + (sf - sk);
  }

  /** Every period the repair would pick from the fetched window (`new_mins`)
      starts strictly inside the window; vacuous when that pick fails. */
  predicate PicksInside(req: Requirement, fetch: Fetch)
  {
    match Extremes(Lowest, req.slots, WindowRates(req, fetch))
    case Err(_) => true
    case Ok(newMins) => forall s :: s in newMins ==> Inside(s.time, req.timeFrom, req.timeTo)
  }

  /** When the API keeps to the window, every pick does. */
  lemma FetchInsidePicksInside(req: Requirement, fetch: Fetch)
    requires forall x :: x in fetch(req.timeFrom, req.timeTo) ==> Inside(x.validFrom, req.timeFrom, req.timeTo)
    ensures PicksInside(req, fetch)
  {
    var e := Extremes(Lowest, req.slots, WindowRates(req, fetch));
    if e.Ok? && 0 <= req.slots {
      NewMinsInside(req, fetch, e.value);
    }
  }

  /** `new_mins` is a dict of `slots` entries of the window's rates. */
  lemma NewMinsShape(req: Requirement, fetch: Fetch)
    requires 0 <= req.slots && Extremes(Lowest, req.slots, WindowRates(req, fetch)).Ok?
    ensures Distinct(Extremes(Lowest, req.slots, WindowRates(req, fetch)).value)
    ensures |Extremes(Lowest, req.slots, WindowRates(req, fetch)).value| == req.slots
  {
    DateRatesKeys(fetch(req.timeFrom, req.timeTo));
    SelectedEntries(Lowest, WindowRates(req, fetch), req.slots);
  }

  /** A successful repair leaves the requirement met when every period it
      picks from the window starts strictly inside the window. */
  lemma RepairMeets(d: Rates, req: Requirement, fetch: Fetch)
    requires Distinct(d) && Repair(d, req, fetch).Ok? && PicksInside(req, fetch)
    ensures req.slots <= |Filled(Repair(d, req, fetch).value, req.timeFrom, req.timeTo)|
  {
    var filled := Filled(d, req.timeFrom, req.timeTo);
    if |filled| < req.slots {
      var newMins := Extremes(Lowest, req.slots, WindowRates(req, fetch)).value;
      var evicted := Extremes(Highest, req.slots - |filled|, Cleared(d, req)).value;
      RepairHoldsNewMins(d, req, fetch, newMins, evicted);
      NewMinsShape(req, fetch);
      var r := PutAll(DeleteKeys(Cleared(d, req), Keys(evicted)), newMins);
      DistinctPairs(newMins);
      forall t | t in Keys(newMins) ensures Has(r, t) && Inside(t, req.timeFrom, req.timeTo) {
        var s :| s in newMins && s.time == t;
        HasEntry(r, s);
      }
      FilledAtLeast(r, req.timeFrom, req.timeTo, Keys(newMins));
    }
  }

  /** A repetition-free list whose keys all lie in another repetition-free
      list, except for one key of the latter, is strictly shorter. */
  lemma FewerKeys(f: seq<Timestamp>, ks: seq<Timestamp>, o: Timestamp)
    requires forall a, b :: 0 <= a < b < |f| ==> f[a] != f[b]
    requires forall a, b :: 0 <= a < b < |ks| ==> ks[a] != ks[b]
    requires o in ks && forall t :: t in f ==> t in ks && t != o
    ensures |f| < |ks|
  {
    KeySetSize(f);
    KeySetSize(ks);
    var sf := set t | t in f;
    var sk := set t | t in ks;
    var rest := sk - {o};
    assert sf <= rest;
    assert rest == sf + (rest - sf);
    assert sk == rest + {o};
  }

  /** A successful repair that fires leaves the requirement unmet when some
      period it picks from the window does not start strictly inside it
      (the period starting exactly at `time_from` is fetched but not
      counted): only picked periods lie inside the window afterwards. */
  lemma RepairFallsShort(d: Rates, req: Requirement, fetch: Fetch)
    requires Distinct(d) && Repair(d, req, fetch).Ok?
    requires |Filled(d, req.timeFrom, req.timeTo)| < req.slots && !PicksInside(req, fetch)
    ensures |Filled(Repair(d, req, fetch).value, req.timeFrom, req.timeTo)| < req.slots
  {
    var lo, hi := req.timeFrom, req.timeTo;
    var newMins := Extremes(Lowest, req.slots, WindowRates(req, fetch)).value;
    var evicted := Extremes(Highest, req.slots - |Filled(d, lo, hi)|, Cleared(d, req)).value;
    RepairEntries(d, req, fetch, newMins, evicted);
    NewMinsShape(req, fetch);
    var r := Repair(d, req, fetch).value;
    var out :| out in newMins && !Inside(out.time, lo, hi);
    var ks := Keys(newMins);
    var f := Filled(r, lo, hi);
    FilledKeys(r, lo, hi);
    DistinctPairs(newMins);
    KeysHas(newMins, out.time);
    HasEntry(newMins, out);
    forall t | t in f ensures t in ks && t != out.time {
      var s := r[KeyIndex(r, t)];
      assert s in r;
      HasEntry(newMins, s);
      KeysHas(newMins, t);
    }
    FewerKeys(f, ks, out.time);
  }

  /** For a repair that fires and succeeds: the requirement is met afterwards
      exactly when every period picked from the window starts strictly
      inside it. */
  lemma RepairMeetsIff(d: Rates, req: Requirement, fetch: Fetch)
    requires Distinct(d) && Repair(d, req, fetch).Ok? && |Filled(d, req.timeFrom, req.timeTo)| < req.slots
    ensures req.slots <= |Filled(Repair(d, req, fetch).value, req.timeFrom, req.timeTo)| <==> PicksInside(req, fetch)
  {
    if PicksInside(req, fetch) {
      RepairMeets(d, req, fetch);
    } else {
      RepairFallsShort(d, req, fetch);
    }
  }

  /** A repair keeps the selection a dict. */
  lemma RepairDistinct(d: Rates, req: Requirement, fetch: Fetch)
    requires Distinct(d) && Repair(d, req, fetch).Ok?
    ensures Distinct(Repair(d, req, fetch).value)
  {
    var filled := Filled(d, req.timeFrom, req.timeTo);
    if |filled| < req.slots {
      var newMins := Extremes(Lowest, req.slots, WindowRates(req, fetch)).value;
      var evicted := Extremes(Highest, req.slots - |filled|, Cleared(d, req)).value;
      RepairEntries(d, req, fetch, newMins, evicted);
    }
  }

  /** Applying a list of requirements is applying all but the last, then the last. */
  lemma {:induction false} ApplySnoc(d: Rates, reqs: seq<Requirement>, fetch: Fetch)
    requires |reqs| > 0
    ensures ApplyRequirements(d, reqs, fetch) ==
      match ApplyRequirements(d, reqs[..|reqs| - 1], fetch)
      case Err(e) => Err(e)
      case Ok(m) => Repair(m, reqs[|reqs| - 1], fetch)
    decreases |reqs|
  {
    if |reqs| > 1 {
      assert reqs[1..][..|reqs[1..]| - 1] == reqs[..|reqs| - 1][1..];
      match Repair(d, reqs[0], fetch)
      case Err(e) =>
      case Ok(d') => ApplySnoc(d', reqs[1..], fetch);
    }
  }

  /** Every requirement applied keeps the selection a dict. */
  lemma {:induction false} ApplyDistinct(d: Rates, reqs: seq<Requirement>, fetch: Fetch)
    requires Distinct(d) && ApplyRequirements(d, reqs, fetch).Ok?
    ensures Distinct(ApplyRequirements(d, reqs, fetch).value)
    decreases |reqs|
  {
    if |reqs| > 0 {
      RepairDistinct(d, reqs[0], fetch);
      ApplyDistinct(Repair(d, reqs[0], fetch).value, reqs[1..], fetch);
    }
  }

  /** The last requirement is met by the result (earlier ones may be undone
      by later evictions) when every period its repair would pick starts
      strictly inside its window. */
  lemma LastRequirementMet(d: Rates, reqs: seq<Requirement>, fetch: Fetch)
    requires Distinct(d) && |reqs| > 0 && ApplyRequirements(d, reqs, fetch).Ok?
    requires PicksInside(reqs[|reqs| - 1], fetch)
    ensures reqs[|reqs| - 1].slots <=
      |Filled(ApplyRequirements(d, reqs, fetch).value, reqs[|reqs| - 1].timeFrom, reqs[|reqs| - 1].timeTo)|
  {
    ApplySnoc(d, reqs, fetch);
    var m := ApplyRequirements(d, reqs[..|reqs| - 1], fetch).value;
    ApplyDistinct(d, reqs[..|reqs| - 1], fetch);
    RepairMeets(m, reqs[|reqs| - 1], fetch);
  }

  /** `get_min_times` returns a dict, and with no requirements it is the base selection. */
  lemma MinTimesShape(num: int, d: Rates, reqs: seq<Requirement>, fetch: Fetch)
    requires Distinct(d)
    ensures MinTimesSpec(num, d, [], fetch) == Extremes(Lowest, num, d)
    ensures MinTimesSpec(num, d, reqs, fetch).Ok? ==> Distinct(MinTimesSpec(num, d, reqs, fetch).value)
  {
    if num <= |d| {
      SelectedDistinct(Lowest, d, if num < 0 then 0 else num);
      if MinTimesSpec(num, d, reqs, fetch).Ok? {
        ApplyDistinct(Selected(Lowest, d, if num < 0 then 0 else num), reqs, fetch);
      }
    }
  }
}
