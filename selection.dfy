/** Selection without replacement by price: the loops of `get_min_times`
    and `get_max_times` that repeatedly take `min(d, key=d.get)` (or `max`)
    and delete the chosen key from a copy of the input. */
module Selection {
  import opened Errors
  import opened OrderedDict

  datatype Direction = Lowest | Highest

  /** Price x is strictly more extreme than price y. */
  predicate Beats(dir: Direction, x: real, y: real)
  {
    if dir == Lowest then x < y else x > y
  }

  /** Scanning the first m entries as `min`/`max` does: the position of the
      first entry whose price none of them beats. */
  function ExtremeIn(dir: Direction, d: Rates, m: nat): (k: nat)
    requires 0 < m <= |d|
    ensures k < m
  {
    if m == 1 then 0
    else
      var k := ExtremeIn(dir, d, m - 1);
      if Beats(dir, d[m - 1].price, d[k].price) then m - 1 else k
  }

  /** `min(d, key=d.get)` / `max(d, key=d.get)`: the position of the first
      entry, in insertion order, whose price no other entry beats. */
  function Extreme(dir: Direction, d: Rates): (k: nat)
    requires |d| > 0
    ensures k < |d|
  {
    ExtremeIn(dir, d, |d|)
  }

  /** Among the first m entries, none beats the one the scan keeps, and it
      strictly beats every entry before it. */
  lemma {:induction false} ExtremeInIsFirstBest(dir: Direction, d: Rates, m: nat)
    requires 0 < m <= |d|
    ensures forall j :: 0 <= j < m ==> !Beats(dir, d[j].price, d[ExtremeIn(dir, d, m)].price)
    ensures forall j :: 0 <= j < ExtremeIn(dir, d, m) ==> Beats(dir, d[ExtremeIn(dir, d, m)].price, d[j].price)
  {
    if m > 1 {
      ExtremeInIsFirstBest(dir, d, m - 1);
    }
  }

  /** No entry beats the one `min`/`max` returns, and it strictly beats every
      entry before it: ties go to the earliest key. */
  lemma ExtremeIsFirstBest(dir: Direction, d: Rates)
    requires |d| > 0
    ensures forall j :: 0 <= j < |d| ==> !Beats(dir, d[j].price, d[Extreme(dir, d)].price)
    ensures forall j :: 0 <= j < Extreme(dir, d) ==> Beats(dir, d[Extreme(dir, d)].price, d[j].price)
  {
    ExtremeInIsFirstBest(dir, d, |d|);
  }

  /** a comes before b in selection order: a more extreme price, or the same
      price and an earlier key. */
  predicate Ahead(dir: Direction, d: Rates, a: Slot, b: Slot)
  {
    Beats(dir, a.price, b.price) || (a.price == b.price && KeyIndex(d, a.time) < KeyIndex(d, b.time))
  }

  /** The entry `min`/`max` picks. */
  function Top(dir: Direction, d: Rates): Slot
    requires |d| > 0
  {
    d[Extreme(dir, d)]
  }

  /** The copy after `del d[k]` of the picked key. */
  function Rest(dir: Direction, d: Rates): Rates
    requires |d| > 0
  {
    Delete(d, Top(dir, d).time)
  }

  /** The dict built by n rounds of "take the extreme entry, delete its key". */
  function Selected(dir: Direction, d: Rates, n: nat): (r: Rates)
    requires n <= |d|
    ensures |r| == n
    decreases n
  {
    if n == 0 then []
    else
      KeyIndexFirst(d, Top(dir, d).time, Extreme(dir, d));
      [Top(dir, d)] + Selected(dir, Rest(dir, d), n - 1)
  }

  /** One round of selection on a dict: the picked entry heads the selection,
      the rest is selected from the dict left after deleting its key, which
      holds every other entry. */
  lemma SelectedStep(dir: Direction, d: Rates, n: nat)
    requires Distinct(d) && 0 < n <= |d|
    ensures Top(dir, d) in d
    ensures Distinct(Rest(dir, d)) && |Rest(dir, d)| == |d| - 1
    ensures forall s :: s in Rest(dir, d) <==> s in d && s.time != Top(dir, d).time
    ensures Selected(dir, d, n) == [Top(dir, d)] + Selected(dir, Rest(dir, d), n - 1)
  {
    KeyIndexFirst(d, Top(dir, d).time, Extreme(dir, d));
    DeleteDistinct(d, Top(dir, d).time);
    DeleteEntries(d, Top(dir, d).time);
  }

  /** Every selected entry is an entry of d, with its original price. */
  lemma {:induction false} SelectedMember(dir: Direction, d: Rates, n: nat, i: nat)
    requires Distinct(d) && i < n <= |d|
    ensures Selected(dir, d, n)[i] in d
    decreases n
  {
    SelectedStep(dir, d, n);
    if i > 0 {
      SelectedMember(dir, Rest(dir, d), n - 1, i - 1);
    }
  }

  /** The selection never holds a key twice. */
  lemma {:induction false} SelectedDistinct(dir: Direction, d: Rates, n: nat)
    requires Distinct(d) && n <= |d|
    ensures Distinct(Selected(dir, d, n))
    decreases n
  {
    if n > 0 {
      SelectedStep(dir, d, n);
      var rest := Selected(dir, Rest(dir, d), n - 1);
      SelectedDistinct(dir, Rest(dir, d), n - 1);
      forall j | 0 <= j < |rest| ensures rest[j].time != Top(dir, d).time {
        SelectedMember(dir, Rest(dir, d), n - 1, j);
      }
      DistinctCons(Top(dir, d), rest);
    }
  }

  /** The selection is itself a dict, and each of its entries is an entry of
      d with its original price. */
  lemma SelectedEntries(dir: Direction, d: Rates, n: nat)
    requires Distinct(d) && n <= |d|
    ensures Distinct(Selected(dir, d, n))
    ensures forall s :: s in Selected(dir, d, n) ==> s in d
  {
    SelectedDistinct(dir, d, n);
    forall i | 0 <= i < n ensures Selected(dir, d, n)[i] in d {
      SelectedMember(dir, d, n, i);
    }
  }

  /** The base selection of a Python call: `num` rounds, failing with
      ValueError once the copy runs empty; a negative `num` runs no round. */
  function Extremes(dir: Direction, num: int, d: Rates): Result<Rates>
  {
    if num > |d| then Err(EmptyArgument)
    else Ok(Selected(dir, d, if num < 0 then 0 else num))
  }

  /** The picked entry is ahead of every other entry. */
  lemma TopAhead(dir: Direction, d: Rates, u: Slot)
    requires Distinct(d) && |d| > 0 && u in d && u != Top(dir, d)
    ensures Ahead(dir, d, Top(dir, d), u)
  {
    var k := Extreme(dir, d);
    var m :| 0 <= m < |d| && d[m] == u;
    ExtremeIsFirstBest(dir, d);
    KeyIndexOf(d, k);
    KeyIndexOf(d, m);
  }

  /** Deleting a third key does not change which of two entries is ahead. */
  lemma AheadDelete(dir: Direction, d: Rates, k: Timestamp, a: Slot, b: Slot)
    requires Distinct(d) && a in Delete(d, k) && b in Delete(d, k)
    ensures Ahead(dir, Delete(d, k), a, b) <==> Ahead(dir, d, a, b)
  {
    DeleteEntries(d, k);
    HasEntry(d, a);
    HasEntry(d, b);
    DeleteKeepsOrder(d, k, a.time, b.time);
  }

  /** Selected entries come out in rank order. */
  lemma {:induction false} SelectedOrder(dir: Direction, d: Rates, n: nat, i: nat, j: nat)
    requires Distinct(d) && n <= |d| && i < j < n
    ensures Ahead(dir, d, Selected(dir, d, n)[i], Selected(dir, d, n)[j])
    decreases n
  {
    SelectedStep(dir, d, n);
    var rest := Selected(dir, Rest(dir, d), n - 1);
    SelectedMember(dir, Rest(dir, d), n - 1, j - 1);
    if i == 0 {
      TopAhead(dir, d, rest[j - 1]);
    } else {
      SelectedOrder(dir, Rest(dir, d), n - 1, i - 1, j - 1);
      SelectedMember(dir, Rest(dir, d), n - 1, i - 1);
      AheadDelete(dir, d, Top(dir, d).time, rest[i - 1], rest[j - 1]);
    }
  }

  /** Every selected entry is ahead of every entry whose key was not selected. */
  lemma {:induction false} SelectedAheadOfRest(dir: Direction, d: Rates, n: nat, i: nat, u: Slot)
    requires Distinct(d) && i < n <= |d| && u in d
    ensures !Has(Selected(dir, d, n), u.time) ==> Ahead(dir, d, Selected(dir, d, n)[i], u)
    decreases n
  {
    SelectedStep(dir, d, n);
    var rest := Selected(dir, Rest(dir, d), n - 1);
    HasCons(Top(dir, d), rest, u.time);
    if !Has(Selected(dir, d, n), u.time) {
      if i == 0 {
        TopAhead(dir, d, u);
      } else {
        SelectedAheadOfRest(dir, Rest(dir, d), n - 1, i - 1, u);
        SelectedMember(dir, Rest(dir, d), n - 1, i - 1);
        AheadDelete(dir, d, Top(dir, d).time, rest[i - 1], u);
      }
    }
  }

  /** The selection is the first n entries of d ranked by price, ties broken
      by insertion order: it comes out in that rank order, and every selected
      entry is ahead of every entry left behind. */
  lemma SelectedRanked(dir: Direction, d: Rates, n: nat)
    requires Distinct(d) && n <= |d|
    ensures forall i, j :: 0 <= i < j < n ==> Ahead(dir, d, Selected(dir, d, n)[i], Selected(dir, d, n)[j])
    ensures forall i, u :: 0 <= i < n && u in d && !Has(Selected(dir, d, n), u.time) ==> Ahead(dir, d, Selected(dir, d, n)[i], u)
  {
    forall i, j | 0 <= i < j < n ensures Ahead(dir, d, Selected(dir, d, n)[i], Selected(dir, d, n)[j]) {
      SelectedOrder(dir, d, n, i, j);
    }
    forall i, u | 0 <= i < n && u in d && !Has(Selected(dir, d, n), u.time) ensures Ahead(dir, d, Selected(dir, d, n)[i], u) {
      SelectedAheadOfRest(dir, d, n, i, u);
    }
  }

  /** What the base selection of `get_min_times` / `get_max_times` returns:
      it fails with ValueError exactly when `num` exceeds the size of the
      dict; otherwise it holds `num` (at least 0) distinct entries of the
      dict with their own prices, in selection order, each ahead of every
      entry left behind. */
  lemma ExtremesOutcome(dir: Direction, num: int, d: Rates)
    requires Distinct(d)
    ensures Extremes(dir, num, d).Err? <==> num > |d|
    ensures Extremes(dir, num, d).Err? ==> Extremes(dir, num, d).error == EmptyArgument
    ensures Extremes(dir, num, d).Ok? ==>
      var r := Extremes(dir, num, d).value;
      && |r| == (if num < 0 then 0 else num)
      && Distinct(r)
      && (forall s :: s in r ==> s in d)
      && (forall i, j :: 0 <= i < j < |r| ==> Ahead(dir, d, r[i], r[j]))
      && (forall i, u :: 0 <= i < |r| && u in d && !Has(r, u.time) ==> Ahead(dir, d, r[i], u))
  {
    if num <= |d| {
      var m := if num < 0 then 0 else num;
      SelectedEntries(dir, d, m);
      SelectedRanked(dir, d, m);
    }
  }

  /** In prices alone: the cheapest selection costs no more than any entry it
      leaves out, and the dearest selection no less. */
  lemma ExtremesPrices(dir: Direction, num: int, d: Rates, s: Slot, u: Slot)
    requires Distinct(d) && Extremes(dir, num, d).Ok?
    requires s in Extremes(dir, num, d).value && u in d && !Has(Extremes(dir, num, d).value, u.time)
    ensures dir == Lowest ==> s.price <= u.price
    ensures dir == Highest ==> s.price >= u.price
  {
    ExtremesOutcome(dir, num, d);
    var r := Extremes(dir, num, d).value;
    var i :| 0 <= i < |r| && r[i] == s;
  }

  /** Writing an entry whose key does not occur before it in a dict appends it. */
  lemma PutFresh(s: Rates, retD: Rates, x: Slot, rest: Rates)
    requires Distinct(s) && s == retD + [x] + rest
    ensures Put(retD, x.time, x.price) == retD + [x]
  {
    DistinctPrefixFresh(retD, x, rest);
  }

  /** One turn of the loop below keeps the selection split into the part
      already moved to the result and the part still to be taken from the copy. */
  lemma TakeStep(dir: Direction, inD: Rates, m: nat, retD: Rates, d: Rates, i: nat)
    requires Distinct(inD) && Distinct(d) && i < m <= |inD| && |d| == |inD| - i
    requires Selected(dir, inD, m) == retD + Selected(dir, d, m - i)
    ensures Distinct(Delete(d, d[Extreme(dir, d)].time)) && |Delete(d, d[Extreme(dir, d)].time)| == |d| - 1
    ensures Selected(dir, inD, m) ==
      Put(retD, d[Extreme(dir, d)].time, d[Extreme(dir, d)].price) + Selected(dir, Delete(d, d[Extreme(dir, d)].time), m - (i + 1))
  {
    var rest := Selected(dir, Rest(dir, d), m - i - 1);
    SelectedStep(dir, d, m - i);
    assert retD + ([Top(dir, d)] + rest) == retD + [Top(dir, d)] + rest;
    SelectedDistinct(dir, inD, m);
    PutFresh(Selected(dir, inD, m), retD, Top(dir, d), rest);
  }

  /** The loop of `Agile.get_min_times` (OctopusAgile/Agile.py lines 67-73)
      and of `Agile.get_max_times` (lines 110-117 of the same file):
      copy the dict, then `num` times move its extreme
      entry into the result. */
  method TakeExtremes(dir: Direction, num: int, inD: Rates) returns (r: Result<Rates>)
    requires Distinct(inD)
    ensures r == Extremes(dir, num, inD)
  {
    var m := if num < 0 then 0 else num;
    var retD: Rates := [];
    var d := inD;
    var i := 0;
    while i < num
      invariant 0 <= i <= m
      invariant i <= |inD| && |d| == |inD| - i
      invariant Distinct(d)
      invariant num <= |inD| ==> Selected(dir, inD, m) == retD + Selected(dir, d, m - i)
    {
      if |d| == 0 {
        return Err(EmptyArgument);
      }
      var k := Extreme(dir, d);
      var key := d[k].time;
      var nextRetD := Put(retD, key, d[k].price);
      var nextD := Delete(d, key);
      assert Distinct(nextD) && |nextD| == |d| - 1 by {
        KeyIndexOf(d, k);
        DeleteDistinct(d, key);
      }
      assert num <= |inD| ==> Selected(dir, inD, m) == nextRetD + Selected(dir, nextD, m - (i + 1)) by {
        if num <= |inD| {
          TakeStep(dir, inD, m, retD, d, i);
        }
      }
      retD, d, i := nextRetD, nextD, i + 1;
    }
    assert Selected(dir, d, 0) == [] && retD + [] == retD;
    return Ok(retD);
  }
}
