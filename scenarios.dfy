/** Worked examples of the selection code on small dicts. The timestamps
    are small abstract ordered values (0, 1, 2, ...), standing for
    consecutive periods. */
module Scenarios {
  import opened Errors
  import opened OrderedDict
  import opened RateRecords
  import opened Selection
  import opened Requirements
  import opened Runs

  /** Four periods priced 10, 5, 20 and 15. */
  function Four(): Rates
  {
    [Slot(0, 10.0), Slot(1, 5.0), Slot(2, 20.0), Slot(3, 15.0)]
  }

  /** The two cheapest of the four come out cheapest first, and the two
      dearest dearest first. */
  lemma FourSelections()
    ensures Extremes(Lowest, 2, Four()) == Ok([Slot(1, 5.0), Slot(0, 10.0)])
    ensures Extremes(Highest, 2, Four()) == Ok([Slot(2, 20.0), Slot(3, 15.0)])
    ensures Extremes(Lowest, 5, Four()) == Err(EmptyArgument)
  {
    var d := Four();
    var low := [Slot(0, 10.0), Slot(2, 20.0), Slot(3, 15.0)];
    assert ExtremeIn(Lowest, d, 2) == 1 && ExtremeIn(Lowest, d, 3) == 1;
    assert Extreme(Lowest, d) == 1;
    assert Rest(Lowest, d) == low by {
      assert KeyIndex(d, 1) == 1;
      OmitAt(d, 1, 0, 0);
      OmitAt(d, 1, 0, 1);
      OmitAt(d, 1, 0, 2);
    }
    assert ExtremeIn(Lowest, low, 2) == 0;
    assert Extreme(Lowest, low) == 0;
    assert Selected(Lowest, d, 2) == [Slot(1, 5.0), Slot(0, 10.0)];
    var high := [Slot(0, 10.0), Slot(1, 5.0), Slot(3, 15.0)];
    assert ExtremeIn(Highest, d, 2) == 0 && ExtremeIn(Highest, d, 3) == 2;
    assert Extreme(Highest, d) == 2;
    assert Rest(Highest, d) == high by {
      assert KeyIndex(d, 2) == 2;
      OmitAt(d, 2, 0, 0);
      OmitAt(d, 2, 0, 1);
      OmitAt(d, 2, 0, 2);
    }
    assert ExtremeIn(Highest, high, 2) == 0;
    assert Extreme(Highest, high) == 2;
    assert Selected(Highest, d, 2) == [Slot(2, 20.0), Slot(3, 15.0)];
  }

  /** The API for the window (0, 3): the periods starting at 0 and at 1; the
      first starts exactly at `time_from`. */
  function EdgeFetch(from: Timestamp, to: Timestamp): seq<RateRecord>
  {
    if from == 0 && to == 3 then [RateRecord(0, 1, 1.0), RateRecord(1, 2, 2.0)] else []
  }

  /** A selection of two periods, one starting exactly at 0 and one after the
      window, meets a requirement of one period inside (0, 3) with nothing:
      the repair fetches the window, picks the period at 0 as its cheapest,
      evicts the period at 4 and writes the period at 0 over itself. The
      selection shrinks to one entry and the requirement is still unmet. */
  lemma EdgeRepairShrinks()
    ensures Filled([Slot(0, 1.0), Slot(4, 9.0)], 0, 3) == []
    ensures Repair([Slot(0, 1.0), Slot(4, 9.0)], Requirement(1, 0, 3), EdgeFetch) == Ok([Slot(0, 1.0)])
    ensures Filled([Slot(0, 1.0)], 0, 3) == []
  {
    var d := [Slot(0, 1.0), Slot(4, 9.0)];
    var req := Requirement(1, 0, 3);
    assert Filled(d, 0, 3) == [] by {
      assert FilledIn(d, 0, 3, 1) == [];
    }
    var rs := EdgeFetch(0, 3);
    var w := [Slot(0, 1.0), Slot(1, 2.0)];
    assert WindowRates(req, EdgeFetch) == w by {
      assert rs[..1] == [rs[0]];
      assert DateRates(rs[..1]) == [Slot(0, 1.0)];
      assert KeyIndex([Slot(0, 1.0)], 1) == 1;
    }
    assert Extreme(Lowest, w) == 0 by {
      assert ExtremeIn(Lowest, w, 2) == 0;
    }
    assert Selected(Lowest, w, 1) == [Top(Lowest, w)] + Selected(Lowest, Rest(Lowest, w), 0);
    assert Selected(Lowest, Rest(Lowest, w), 0) == [];
    assert Top(Lowest, w) == Slot(0, 1.0);
    assert Selected(Lowest, w, 1) == [Slot(0, 1.0)];
    assert Extremes(Lowest, 1, w) == Ok([Slot(0, 1.0)]);
    assert Cleared(d, req) == d;
    assert Extreme(Highest, d) == 1 by {
      assert ExtremeIn(Highest, d, 2) == 1;
    }
    assert Selected(Highest, d, 1) == [Top(Highest, d)] + Selected(Highest, Rest(Highest, d), 0);
    assert Selected(Highest, Rest(Highest, d), 0) == [];
    assert Top(Highest, d) == Slot(4, 9.0);
    assert Selected(Highest, d, 1) == [Slot(4, 9.0)];
    assert Extremes(Highest, 1, d) == Ok([Slot(4, 9.0)]);
    assert Keys([Slot(4, 9.0)]) == [4];
    assert DeleteKeys(d, [4]) == [Slot(0, 1.0)] by {
      assert [4][..0] == [];
      assert KeyIndex(d, 4) == 1;
      OmitAt(d, 1, 0, 0);
    }
    assert PutAll([Slot(0, 1.0)], [Slot(0, 1.0)]) == [Slot(0, 1.0)] by {
      assert [Slot(0, 1.0)][..0] == [];
      assert KeyIndex([Slot(0, 1.0)], 0) == 0;
    }
    assert FilledIn([Slot(0, 1.0)], 0, 3, 1) == [];
  }

  /** The API for the window (0, 3): the periods starting at 0, 1 and 2. */
  function KeepFetch(from: Timestamp, to: Timestamp): seq<RateRecord>
  {
    if from == 0 && to == 3 then [RateRecord(0, 1, 5.0), RateRecord(1, 2, 6.0), RateRecord(2, 3, 7.0)] else []
  }

  /** The two cheapest of {10: 3, 0: 5, 1: 6, 2: 7}: the periods at 10 and 0. */
  lemma KeepBase()
    ensures Extremes(Lowest, 2, [Slot(10, 3.0), Slot(0, 5.0), Slot(1, 6.0), Slot(2, 7.0)]) == Ok([Slot(10, 3.0), Slot(0, 5.0)])
  {
    var all := [Slot(10, 3.0), Slot(0, 5.0), Slot(1, 6.0), Slot(2, 7.0)];
    var rest := [Slot(0, 5.0), Slot(1, 6.0), Slot(2, 7.0)];
    assert ExtremeIn(Lowest, all, 2) == 0 && ExtremeIn(Lowest, all, 3) == 0;
    assert Extreme(Lowest, all) == 0;
    assert Rest(Lowest, all) == rest by {
      assert KeyIndex(all, 10) == 0;
      OmitAt(all, 0, 0, 0);
      OmitAt(all, 0, 0, 1);
      OmitAt(all, 0, 0, 2);
    }
    assert ExtremeIn(Lowest, rest, 2) == 0;
    assert Extreme(Lowest, rest) == 0;
    assert Selected(Lowest, Rest(Lowest, rest), 0) == [];
    assert Selected(Lowest, rest, 1) == [Slot(0, 5.0)];
    assert Top(Lowest, all) == Slot(10, 3.0);
    assert Selected(Lowest, all, 2) == [Slot(10, 3.0), Slot(0, 5.0)];
  }

  /** The window's rates as the repair sees them. */
  lemma KeepWindow()
    ensures WindowRates(Requirement(1, 0, 3), KeepFetch) == [Slot(0, 5.0), Slot(1, 6.0), Slot(2, 7.0)]
  {
    var rs := KeepFetch(0, 3);
    assert rs[..1] == [rs[0]] && rs[..1][..0] == [];
    assert rs[..2][..1] == rs[..1] && rs[..3] == rs;
    assert DateRates(rs[..1]) == [Slot(0, 5.0)];
    assert KeyIndex([Slot(0, 5.0)], 1) == 1;
    assert DateRates(rs[..2]) == [Slot(0, 5.0), Slot(1, 6.0)];
    assert KeyIndex([Slot(0, 5.0), Slot(1, 6.0)], 2) == 2;
  }

  /** That selection holds the period at 0, which is also its dearest choice.
      A requirement of one period inside (0, 3) finds none, picks the period
      at 0 from the window, evicts it as the dearest choice and writes it
      back: the selection keeps its size and the requirement stays unmet. */
  lemma EdgeRepairKeepsSize()
    ensures Extremes(Lowest, 2, [Slot(10, 3.0), Slot(0, 5.0), Slot(1, 6.0), Slot(2, 7.0)]) == Ok([Slot(10, 3.0), Slot(0, 5.0)])
    ensures Filled([Slot(10, 3.0), Slot(0, 5.0)], 0, 3) == []
    ensures Repair([Slot(10, 3.0), Slot(0, 5.0)], Requirement(1, 0, 3), KeepFetch) == Ok([Slot(10, 3.0), Slot(0, 5.0)])
  {
    KeepBase();
    KeepWindow();
    var d := [Slot(10, 3.0), Slot(0, 5.0)];
    var req := Requirement(1, 0, 3);
    assert Filled(d, 0, 3) == [] by {
      assert FilledIn(d, 0, 3, 1) == [];
    }
    var w := [Slot(0, 5.0), Slot(1, 6.0), Slot(2, 7.0)];
    assert Extreme(Lowest, w) == 0 by {
      assert ExtremeIn(Lowest, w, 2) == 0;
    }
    assert Selected(Lowest, Rest(Lowest, w), 0) == [];
    assert Selected(Lowest, w, 1) == [Slot(0, 5.0)];
    assert Cleared(d, req) == d;
    assert Extreme(Highest, d) == 1 by {
      assert ExtremeIn(Highest, d, 2) == 1;
    }
    assert Selected(Highest, Rest(Highest, d), 0) == [];
    assert Selected(Highest, d, 1) == [Slot(0, 5.0)];
    assert Keys([Slot(0, 5.0)]) == [0];
    assert DeleteKeys(d, [0]) == [Slot(10, 3.0)] by {
      assert [0][..0] == [];
      assert KeyIndex(d, 0) == 1;
      OmitAt(d, 1, 0, 0);
    }
    assert PutAll([Slot(10, 3.0)], [Slot(0, 5.0)]) == d by {
      assert [Slot(0, 5.0)][..0] == [];
      assert KeyIndex([Slot(10, 3.0)], 0) == 1;
    }
  }

  /** Six periods, all priced 10. */
  function Flat(): Rates
  {
    [Slot(0, 10.0), Slot(1, 10.0), Slot(2, 10.0), Slot(3, 10.0), Slot(4, 10.0), Slot(5, 10.0)]
  }

  /** The cheapest one-hour run of six equal prices: every run averages 10,
      and the first run of the reversed scan wins the tie, so the key
      returned is that of the last period. */
  lemma FlatRun()
    ensures MinTimeRunSpec(1.0, Flat()) == Ok(Some(Slot(5, 10.0)))
  {
    var r := Reverse(Flat());
    assert Slots(1.0) == 2;
    forall i | 0 <= i <= 4 ensures Avg(r, i, 2) == 10.0 {
      var ps := WindowPrices(r, i, 2);
      assert ps == [10.0, 10.0];
      assert ps[..1] == [10.0] && ps[..1][..0] == [];
      assert Sum(ps[..1]) == 10.0;
      assert Sum(ps) == 20.0;
    }
    var a := Averages(r, 2, 5);
    assert forall i :: 0 <= i < 5 ==> a[i].price == 10.0;
    assert ExtremeIn(Lowest, a, 2) == 0 && ExtremeIn(Lowest, a, 3) == 0 && ExtremeIn(Lowest, a, 4) == 0;
    assert BestStart(r, 2) == 0;
    assert a[0] == Slot(5, 10.0);
  }
}
