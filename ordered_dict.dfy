/** Errors raised by the Python built-ins the rate code relies on, and the
    result type that carries them instead of an exception. */
module Errors {
  datatype Error =
    | EmptyArgument   // ValueError: min() or max() of an empty dict
    | ZeroDivision    // ZeroDivisionError: a sum divided by zero slots
    | NoNextItem      // StopIteration: next(iter(d)) on an empty dict

  datatype Result<T> = Ok(value: T) | Err(error: Error)
}

/** A Python dict from timestamp to price, as the rate code uses it: an
    insertion-ordered sequence of entries with distinct keys. */
module OrderedDict {

  /** A point in time, in microseconds since the epoch. */
  type Timestamp = int

  /** One entry of a date/rate dict: the start of a half-hour period and its price. */
  datatype Slot = Slot(time: Timestamp, price: real)

  type Rates = seq<Slot>

  /** Scanning d from position j on: the position of the first entry with
      key k, or |d| when no later entry has it. */
  function FindFrom(d: Rates, k: Timestamp, j: nat): (i: nat)
    requires j <= |d|
    ensures j <= i <= |d|
    ensures i < |d| ==> d[i].time == k
    decreases |d| - j
  {
    if j == |d| then |d|
    else if d[j].time == k then j
    else FindFrom(d, k, j + 1)
  }

  /** The position of key k in insertion order, or |d| when k is absent. */
  function KeyIndex(d: Rates, k: Timestamp): (i: nat)
    ensures i <= |d|
    ensures i < |d| ==> d[i].time == k
  {
    FindFrom(d, k, 0)
  }

  /** `k in d`. */
  predicate Has(d: Rates, k: Timestamp)
  {
    KeyIndex(d, k) < |d|
  }

  /** From position j on, no entry's key occurs again later. */
  predicate DistinctFrom(d: Rates, j: nat)
    requires j <= |d|
    decreases |d| - j
  {
    j == |d| || (FindFrom(d, d[j].time, j + 1) == |d| && DistinctFrom(d, j + 1))
  }

  /** A dict never holds the same key twice. */
  predicate Distinct(d: Rates)
  {
    DistinctFrom(d, 0)
  }

  lemma {:induction false} DistinctFromPairs(d: Rates, j: nat)
    requires j <= |d| && DistinctFrom(d, j)
    ensures forall a, b :: j <= a < b < |d| ==> d[a].time != d[b].time
    decreases |d| - j
  {
    if j < |d| {
      DistinctFromPairs(d, j + 1);
      forall b | j < b < |d| ensures d[b].time != d[j].time {
        FindFromFirst(d, d[j].time, j + 1, b);
      }
    }
  }

  lemma {:induction false} PairsDistinctFrom(d: Rates, j: nat)
    requires j <= |d|
    requires forall a, b :: j <= a < b < |d| ==> d[a].time != d[b].time
    ensures DistinctFrom(d, j)
    decreases |d| - j
  {
    if j < |d| {
      PairsDistinctFrom(d, j + 1);
    }
  }

  /** Distinct says that any two entries have different keys. */
  lemma DistinctPairs(d: Rates)
    requires Distinct(d)
    ensures forall i, j :: 0 <= i < j < |d| ==> d[i].time != d[j].time
  {
    DistinctFromPairs(d, 0);
  }

  /** Any two entries having different keys makes a dict. */
  lemma PairsDistinct(d: Rates)
    requires forall i, j :: 0 <= i < j < |d| ==> d[i].time != d[j].time
    ensures Distinct(d)
  {
    PairsDistinctFrom(d, 0);
  }

  /** The scan stops at the first entry with the key. */
  lemma {:induction false} FindFromFirst(d: Rates, k: Timestamp, s: nat, j: nat)
    requires s <= j < |d|
    ensures d[j].time == k ==> FindFrom(d, k, s) <= j
    decreases j - s
  {
    if s < j && d[s].time != k {
      FindFromFirst(d, k, s + 1, j);
    }
  }

  /** KeyIndex finds the first entry with the key. */
  lemma KeyIndexFirst(d: Rates, k: Timestamp, j: nat)
    requires j < |d|
    ensures d[j].time == k ==> KeyIndex(d, k) <= j
  {
    FindFromFirst(d, k, 0, j);
  }

  /** A key that is absent is the key of no entry. */
  lemma Absent(d: Rates, k: Timestamp, j: nat)
    requires !Has(d, k) && j < |d|
    ensures d[j].time != k
  {
    KeyIndexFirst(d, k, j);
  }

  /** In a dict, the key of the entry at position j is found at position j. */
  lemma KeyIndexOf(d: Rates, j: nat)
    requires Distinct(d) && j < |d|
    ensures KeyIndex(d, d[j].time) == j
  {
    DistinctPairs(d);
    KeyIndexFirst(d, d[j].time, j);
  }

  /** The key of every entry is present. */
  lemma HasEntry(d: Rates, s: Slot)
    requires s in d
    ensures Has(d, s.time)
  {
    var j :| 0 <= j < |d| && d[j] == s;
    KeyIndexFirst(d, s.time, j);
  }

  /** The keys of a dict, in insertion order (`list(d.keys())`). */
  function Keys(d: Rates): (ks: seq<Timestamp>)
    ensures |ks| == |d|
  {
    seq(|d|, j requires 0 <= j < |d| => d[j].time)
  }

  /** A timestamp is among the keys exactly when the dict has it. */
  lemma KeysHas(d: Rates, t: Timestamp)
    ensures t in Keys(d) <==> Has(d, t)
  {
    var ks := Keys(d);
    if t in ks {
      var j :| 0 <= j < |ks| && ks[j] == t;
      KeyIndexFirst(d, t, j);
    }
    if Has(d, t) {
      assert ks[KeyIndex(d, t)] == t;
    }
  }

  /** Scanning d + [x] finds what scanning d finds, or x at the end. */
  lemma {:induction false} FindFromSnoc(d: Rates, x: Slot, t: Timestamp, j: nat)
    requires j <= |d|
    ensures FindFrom(d + [x], t, j) == if FindFrom(d, t, j) < |d| || x.time == t then FindFrom(d, t, j) else |d| + 1
    decreases |d| - j
  {
    if j < |d| {
      assert (d + [x])[j] == d[j];
      if d[j].time != t {
        FindFromSnoc(d, x, t, j + 1);
      }
    }
  }

  /** Appending an entry keeps the positions of the keys already present. */
  lemma KeyIndexSnoc(d: Rates, x: Slot, t: Timestamp)
    ensures Has(d + [x], t) <==> Has(d, t) || t == x.time
    ensures Has(d, t) ==> KeyIndex(d + [x], t) == KeyIndex(d, t)
    ensures !Has(d, t) && t == x.time ==> KeyIndex(d + [x], t) == |d|
  {
    FindFromSnoc(d, x, t, 0);
  }

  /** Scanning [x] + d one position later is scanning d, shifted by one. */
  lemma {:induction false} FindFromCons(x: Slot, d: Rates, t: Timestamp, j: nat)
    requires j <= |d|
    ensures FindFrom([x] + d, t, j + 1) == FindFrom(d, t, j) + 1
    decreases |d| - j
  {
    if j < |d| {
      assert ([x] + d)[j + 1] == d[j];
      if d[j].time != t {
        FindFromCons(x, d, t, j + 1);
      }
    }
  }

  /** Putting an entry in front: its key is found first. */
  lemma HasCons(x: Slot, d: Rates, t: Timestamp)
    ensures Has([x] + d, t) <==> t == x.time || Has(d, t)
  {
    FindFromCons(x, d, t, 0);
  }

  /** `d[k] = v`: a present key keeps its position and takes the new value;
      a new key is appended at the end. */
  function Put(d: Rates, k: Timestamp, v: real): (r: Rates)
    ensures |r| == if Has(d, k) then |d| else |d| + 1
  {
    var i := KeyIndex(d, k);
    if i < |d| then d[i := Slot(k, v)] else d + [Slot(k, v)]
  }

  /** After `d[k] = v` the entry at k's position is the new one and every other
      position holds what it held. */
  lemma PutAt(d: Rates, k: Timestamp, v: real, j: nat)
    requires j < |Put(d, k, v)|
    ensures Put(d, k, v)[j] == if j == KeyIndex(d, k) then Slot(k, v) else d[j]
  {
  }

  /** `d[k] = v` keeps the position of every key and adds k when missing. */
  lemma PutKeyIndex(d: Rates, k: Timestamp, v: real, t: Timestamp)
    ensures Has(Put(d, k, v), t) <==> Has(d, t) || t == k
    ensures KeyIndex(Put(d, k, v), k) == KeyIndex(d, k)
    ensures Has(d, t) ==> KeyIndex(Put(d, k, v), t) == KeyIndex(d, t)
  {
    var r := Put(d, k, v);
    var ik := KeyIndex(d, k);
    if ik < |d| {
      PutAt(d, k, v, ik);
      KeyIndexFirst(r, k, ik);
      var j := KeyIndex(r, k);
      if j < ik {
        PutAt(d, k, v, j);
        KeyIndexFirst(d, k, j);
      }
    } else {
      KeyIndexSnoc(d, Slot(k, v), t);
      KeyIndexSnoc(d, Slot(k, v), k);
    }
    if t != k && ik < |d| {
      var it := KeyIndex(d, t);
      var jt := KeyIndex(r, t);
      if it < |d| {
        PutAt(d, k, v, it);
        KeyIndexFirst(r, t, it);
      }
      if jt < |r| {
        PutAt(d, k, v, jt);
        KeyIndexFirst(d, t, jt);
      }
    }
  }

  /** `d[k] = v` on a dict gives a dict. */
  lemma PutDistinct(d: Rates, k: Timestamp, v: real)
    requires Distinct(d)
    ensures Distinct(Put(d, k, v))
  {
    DistinctPairs(d);
    if !Has(d, k) {
      forall i | 0 <= i < |d| ensures d[i].time != k {
        Absent(d, k, i);
      }
    }
    PairsDistinct(Put(d, k, v));
  }

  /** Every entry after `d[k] = v`: the new one and the old ones with other keys. */
  lemma PutEntries(d: Rates, k: Timestamp, v: real)
    requires Distinct(d)
    ensures forall s :: s in Put(d, k, v) <==> s == Slot(k, v) || (s in d && s.time != k)
  {
    var r := Put(d, k, v);
    var ik := KeyIndex(d, k);
    DistinctPairs(d);
    PutAt(d, k, v, ik);
    assert r[ik] in r;
    forall s | s in d && s.time != k ensures s in r {
      var j :| 0 <= j < |d| && d[j] == s;
      PutAt(d, k, v, j);
    }
    forall s | s in r ensures s == Slot(k, v) || (s in d && s.time != k) {
      var j :| 0 <= j < |r| && r[j] == s;
      PutAt(d, k, v, j);
      if j != ik {
        KeyIndexFirst(d, k, j);
      }
    }
  }

  /** The entries of d from position j on, in order, leaving out position i. */
  function Omit(d: Rates, i: nat, j: nat): (r: Rates)
    requires j <= |d|
    ensures |r| == if j <= i < |d| then |d| - j - 1 else |d| - j
    decreases |d| - j
  {
    if j == |d| then []
    else if j == i then Omit(d, i, j + 1)
    else [d[j]] + Omit(d, i, j + 1)
  }

  /** Position m of Omit(d, i, j) holds entry j + m of d, or the one after it
      once the left-out position is passed. */
  lemma {:induction false} OmitAt(d: Rates, i: nat, j: nat, m: nat)
    requires j <= |d| && m < |Omit(d, i, j)|
    ensures Omit(d, i, j)[m] == d[if j + m < i || i < j then j + m else j + m + 1]
    decreases |d| - j
  {
    if j == i {
      OmitAt(d, i, j + 1, m);
    } else if m > 0 {
      OmitAt(d, i, j + 1, m - 1);
    }
  }

  /** `del d[k]`: the entry with key k leaves, the others keep their order. */
  function Delete(d: Rates, k: Timestamp): (r: Rates)
    ensures |r| == if Has(d, k) then |d| - 1 else |d|
  {
    var i := KeyIndex(d, k);
    if i < |d| then Omit(d, i, 0) else d
  }

  /** Entries before the deleted one keep their position; later ones move down one. */
  lemma DeleteAt(d: Rates, k: Timestamp, j: nat)
    requires j < |Delete(d, k)|
    ensures Delete(d, k)[j] == d[if j < KeyIndex(d, k) then j else j + 1]
  {
    if Has(d, k) {
      OmitAt(d, KeyIndex(d, k), 0, j);
    }
  }

  /** `del d[k]` on a dict gives a dict. */
  lemma DeleteDistinct(d: Rates, k: Timestamp)
    requires Distinct(d)
    ensures Distinct(Delete(d, k))
  {
    var r := Delete(d, k);
    DistinctPairs(d);
    forall i, j | 0 <= i < j < |r| ensures r[i].time != r[j].time {
      DeleteAt(d, k, i);
      DeleteAt(d, k, j);
    }
    PairsDistinct(r);
  }

  /** What is left after `del d[k]`: every entry except k's. */
  lemma DeleteEntries(d: Rates, k: Timestamp)
    requires Distinct(d)
    ensures forall s :: s in Delete(d, k) <==> s in d && s.time != k
  {
    var r := Delete(d, k);
    var i := KeyIndex(d, k);
    forall s | s in d && s.time != k ensures s in r {
      var j :| 0 <= j < |d| && d[j] == s;
      KeyIndexFirst(d, k, j);
      DeleteAt(d, k, if j < i then j else j - 1);
    }
    forall s | s in r ensures s in d && s.time != k {
      var j :| 0 <= j < |r| && r[j] == s;
      var j' := if j < i then j else j + 1;
      DeleteAt(d, k, j);
      KeyIndexFirst(d, k, j');
      KeyIndexOf(d, j');
    }
  }

  /** Deleting a key shifts the later keys down by one and keeps the rest. */
  lemma DeleteKeyIndex(d: Rates, k: Timestamp, a: Timestamp)
    requires Distinct(d) && Has(d, a) && a != k
    ensures Has(Delete(d, k), a)
    ensures KeyIndex(Delete(d, k), a) ==
            if Has(d, k) && KeyIndex(d, k) < KeyIndex(d, a) then KeyIndex(d, a) - 1 else KeyIndex(d, a)
  {
    var r := Delete(d, k);
    var ia, ik := KeyIndex(d, a), KeyIndex(d, k);
    var pos := if Has(d, k) && ik < ia then ia - 1 else ia;
    DeleteAt(d, k, pos);
    DeleteDistinct(d, k);
    assert r[pos] == d[ia];
    KeyIndexOf(r, pos);
  }

  /** After `del d[k]` the dict has exactly the keys it had, except k. */
  lemma DeleteHas(d: Rates, k: Timestamp, t: Timestamp)
    requires Distinct(d)
    ensures Has(Delete(d, k), t) <==> Has(d, t) && t != k
  {
    var r := Delete(d, k);
    if Has(d, t) && t != k {
      DeleteKeyIndex(d, k, t);
    }
    if Has(r, t) {
      var j := KeyIndex(r, t);
      var j' := if j < KeyIndex(d, k) then j else j + 1;
      DeleteAt(d, k, j);
      KeyIndexFirst(d, t, j');
      KeyIndexOf(d, j');
    }
  }

  /** Relative order of two surviving keys is what it was before a deletion. */
  lemma DeleteKeepsOrder(d: Rates, k: Timestamp, a: Timestamp, b: Timestamp)
    requires Distinct(d) && Has(d, a) && Has(d, b) && a != k && b != k
    ensures KeyIndex(Delete(d, k), a) < KeyIndex(Delete(d, k), b) <==> KeyIndex(d, a) < KeyIndex(d, b)
  {
    DeleteKeyIndex(d, k, a);
    DeleteKeyIndex(d, k, b);
  }

  /** `for k in ks: del d[k]`, in the order of ks. */
  function DeleteKeys(d: Rates, ks: seq<Timestamp>): (r: Rates)
    decreases |ks|
  {
    if |ks| == 0 then d
    else Delete(DeleteKeys(d, ks[..|ks| - 1]), ks[|ks| - 1])
  }

  /** Deleting keys from a dict gives a dict holding the entries not in ks. */
  lemma {:induction false} DeleteKeysEntries(d: Rates, ks: seq<Timestamp>)
    requires Distinct(d)
    ensures Distinct(DeleteKeys(d, ks))
    ensures forall s :: s in DeleteKeys(d, ks) <==> s in d && s.time !in ks
    decreases |ks|
  {
    if |ks| > 0 {
      var init := ks[..|ks| - 1];
      assert ks == init + [ks[|ks| - 1]];
      DeleteKeysEntries(d, init);
      DeleteEntries(DeleteKeys(d, init), ks[|ks| - 1]);
      DeleteDistinct(DeleteKeys(d, init), ks[|ks| - 1]);
    }
  }

  /** The keys left after deleting ks: the old ones not in ks. */
  lemma {:induction false} DeleteKeysHas(d: Rates, ks: seq<Timestamp>, t: Timestamp)
    requires Distinct(d)
    ensures Has(DeleteKeys(d, ks), t) <==> Has(d, t) && t !in ks
    decreases |ks|
  {
    if |ks| > 0 {
      var init := ks[..|ks| - 1];
      assert ks == init + [ks[|ks| - 1]];
      DeleteKeysHas(d, init, t);
      DeleteKeysEntries(d, init);
      DeleteHas(DeleteKeys(d, init), ks[|ks| - 1], t);
    }
  }

  /** Deleting |ks| distinct present keys removes exactly |ks| entries. */
  lemma {:induction false} DeleteKeysSize(d: Rates, ks: seq<Timestamp>)
    requires Distinct(d)
    requires forall i, j :: 0 <= i < j < |ks| ==> ks[i] != ks[j]
    requires forall t :: t in ks ==> Has(d, t)
    ensures |DeleteKeys(d, ks)| == |d| - |ks|
    decreases |ks|
  {
    if |ks| > 0 {
      var init := ks[..|ks| - 1];
      var last := ks[|ks| - 1];
      assert ks == init + [last];
      forall i | 0 <= i < |init| ensures init[i] != last {
        assert init[i] == ks[i];
      }
      DeleteKeysSize(d, init);
      DeleteKeysHas(d, init, last);
    }
  }

  /** `for k, v in es.items(): d[k] = v`, in the order of es. */
  function PutAll(d: Rates, es: Rates): (r: Rates)
    decreases |es|
  {
    if |es| == 0 then d
    else
      var last := es[|es| - 1];
      Put(PutAll(d, es[..|es| - 1]), last.time, last.price)
  }

  /** A key that no entry has is absent. */
  lemma NotHas(d: Rates, k: Timestamp)
    requires forall j :: 0 <= j < |d| ==> d[j].time != k
    ensures !Has(d, k)
  {
  }

  /** The last entry of a dict has a key the rest does not hold. */
  lemma LastKeyFresh(es: Rates)
    requires Distinct(es) && |es| > 0
    ensures Distinct(es[..|es| - 1])
    ensures !Has(es[..|es| - 1], es[|es| - 1].time)
  {
    var init := es[..|es| - 1];
    DistinctPairs(es);
    forall j | 0 <= j < |init| ensures init[j].time != es[|es| - 1].time {
      assert init[j] == es[j];
    }
    NotHas(init, es[|es| - 1].time);
    PairsDistinct(init);
  }

  /** The keys after PutAll are the old keys and the keys written. */
  lemma {:induction false} PutAllHas(d: Rates, es: Rates, t: Timestamp)
    ensures Has(PutAll(d, es), t) <==> Has(d, t) || Has(es, t)
    decreases |es|
  {
    if |es| > 0 {
      var init := es[..|es| - 1];
      var last := es[|es| - 1];
      assert es == init + [last];
      PutAllHas(d, init, t);
      KeyIndexSnoc(init, last, t);
      PutKeyIndex(PutAll(d, init), last.time, last.price, t);
    }
  }

  /** Entries written by PutAll are all present afterwards, beside the old
      entries whose keys were not written; and the result is a dict. */
  lemma {:induction false} PutAllEntries(d: Rates, es: Rates)
    requires Distinct(d) && Distinct(es)
    ensures Distinct(PutAll(d, es))
    ensures forall s :: s in PutAll(d, es) <==> s in es || (s in d && !Has(es, s.time))
    decreases |es|
  {
    if |es| > 0 {
      var init := es[..|es| - 1];
      var last := es[|es| - 1];
      assert es == init + [last];
      LastKeyFresh(es);
      PutAllEntries(d, init);
      var p := PutAll(d, init);
      PutEntries(p, last.time, last.price);
      PutDistinct(p, last.time, last.price);
      forall t ensures Has(es, t) <==> Has(init, t) || t == last.time {
        KeyIndexSnoc(init, last, t);
      }
      forall s | s in init ensures s.time != last.time {
        HasEntry(init, s);
      }
    }
  }

  /** How many entries of es have a key that d already holds. */
  function CountPresent(es: Rates, d: Rates): (n: nat)
    ensures n <= |es|
    decreases |es|
  {
    if |es| == 0 then 0
    else CountPresent(es[..|es| - 1], d) + (if Has(d, es[|es| - 1].time) then 1 else 0)
  }

  /** The size of a dict after PutAll: every key of es that d lacks adds one entry. */
  lemma {:induction false} PutAllSize(d: Rates, es: Rates)
    requires Distinct(es)
    ensures |PutAll(d, es)| + CountPresent(es, d) == |d| + |es|
    decreases |es|
  {
    if |es| > 0 {
      var init := es[..|es| - 1];
      var last := es[|es| - 1];
      LastKeyFresh(es);
      PutAllSize(d, init);
      PutAllHas(d, init, last.time);
    }
  }

  /** Putting a new key in front of a dict gives a dict. */
  lemma DistinctCons(x: Slot, d: Rates)
    requires Distinct(d) && !Has(d, x.time)
    ensures Distinct([x] + d)
  {
    var r := [x] + d;
    DistinctPairs(d);
    forall i, j | 0 <= i < j < |r| ensures r[i].time != r[j].time {
      assert r[j] == d[j - 1];
      if i == 0 {
        Absent(d, x.time, j - 1);
      } else {
        assert r[i] == d[i - 1];
      }
    }
    PairsDistinct(r);
  }

  /** In a dict, a key does not occur before its own entry. */
  lemma DistinctPrefixFresh(a: Rates, x: Slot, b: Rates)
    requires Distinct(a + [x] + b)
    ensures !Has(a, x.time)
  {
    var d := a + [x] + b;
    DistinctPairs(d);
    assert d[|a|] == x;
    forall j | 0 <= j < |a| ensures a[j].time != x.time {
      assert d[j] == a[j];
    }
    NotHas(a, x.time);
  }

}
