/**
 A resource timeline: the future balance changes of one resource pool, as a
 sequence of `{time, amount}` entries kept in strictly ascending tick order.
 A positive amount is a future draw on the pool, a negative amount a future
 release or production.
 */
module Timeline {

  /** The tick that stands for "never". */
  const MaxTime: int := 0x7FFF_FFFF

  datatype ResourceTiming = ResourceTiming(time: int, amount: int)

  /** Entries are ordered by tick and no two share a tick. */
  predicate StrictlySorted(s: seq<ResourceTiming>)
  {
    forall i, j :: 0 <= i < j < |s| ==> s[i].time < s[j].time
  }

  /** A sorted timeline whose events all lie after tick 0. */
  predicate Future(s: seq<ResourceTiming>)
  {
    StrictlySorted(s) && forall i :: 0 <= i < |s| ==> s[i].time > 0
  }

  predicate HasTime(s: seq<ResourceTiming>, t: int)
  {
    exists i :: 0 <= i < |s| && s[i].time == t
  }

  /** The number of leading entries whose tick is below `t`: the position a
      search for the first entry with `time >= t` stops at. */
  function FirstAtOrAfter(s: seq<ResourceTiming>, t: int): (k: nat)
    ensures k <= |s|
    ensures forall i :: 0 <= i < k ==> s[i].time < t
    ensures k < |s| ==> s[k].time >= t
  {
    if s == [] || s[0].time >= t then 0 else 1 + FirstAtOrAfter(s[1..], t)
  }

  /** On a sorted timeline every entry from the search position on is at or after `t`. */
  lemma {:induction false} FirstAtOrAfterSplits(s: seq<ResourceTiming>, t: int)
    requires StrictlySorted(s)
    ensures forall i :: 0 <= i < |s| ==> (i < FirstAtOrAfter(s, t) <==> s[i].time < t)
  {
    var k := FirstAtOrAfter(s, t);
    forall i | 0 <= i < |s|
      ensures i < k <==> s[i].time < t
    {
      if k <= i {
        assert k < |s| && s[k].time >= t;
        assert k == i || s[k].time < s[i].time;
      }
    }
  }

  /** A later tick never moves the search position back. */
  lemma {:induction false} FirstAtOrAfterMonotone(s: seq<ResourceTiming>, t1: int, t2: int)
    requires t1 <= t2
    ensures FirstAtOrAfter(s, t1) <= FirstAtOrAfter(s, t2)
  {
    if s != [] && s[0].time < t1 {
      FirstAtOrAfterMonotone(s[1..], t1, t2);
    }
  }

  /** The merge-insert: the search stops at the first entry with `time >= t`;
      an entry already at `t` takes the amount, otherwise a new entry goes in
      at that position. An entry whose amount reaches zero stays. */
  function Insert(s: seq<ResourceTiming>, t: int, amount: int): seq<ResourceTiming>
  {
    var k := FirstAtOrAfter(s, t);
    if k < |s| && s[k].time == t then s[k := ResourceTiming(t, s[k].amount + amount)]
    else s[..k] + [ResourceTiming(t, amount)] + s[k..]
  }

  /** Binary search for the insertion position, as the source's `upper_bound`
      with the predicate `item.time >= time` performs it. */
  method LowerBound(s: seq<ResourceTiming>, t: int) returns (k: nat)
    requires StrictlySorted(s)
    ensures k == FirstAtOrAfter(s, t)
  {
    var lo, hi := 0, |s|;
    while lo < hi
      invariant 0 <= lo <= hi <= |s|
      invariant forall i :: 0 <= i < lo ==> s[i].time < t
      invariant forall i :: hi <= i < |s| ==> s[i].time >= t
    {
      var mid := lo + (hi - lo) / 2;
      if s[mid].time >= t {
        hi := mid;
      } else {
        lo := mid + 1;
      }
    }
    k := lo;
    FirstAtOrAfterUnique(s, t, k);
  }

  /** Any position with only earlier ticks before it and a tick at or after
      `t` on it is the search position. */
  lemma FirstAtOrAfterUnique(s: seq<ResourceTiming>, t: int, k: nat)
    requires k <= |s|
    requires forall i :: 0 <= i < k ==> s[i].time < t
    requires k < |s| ==> s[k].time >= t
    ensures k == FirstAtOrAfter(s, t)
  {
  }

  /** `reserveTaskResource`: merge-insert `amount` at tick `time`. */
  method ReserveTaskResource(timings: seq<ResourceTiming>, time: int, amount: int)
    returns (r: seq<ResourceTiming>)
    requires StrictlySorted(timings)
    ensures r == Insert(timings, time, amount)
    ensures StrictlySorted(r)
  {
    var k := LowerBound(timings, time);
    if k < |timings| && timings[k].time == time {
      r := timings[k := ResourceTiming(time, timings[k].amount + amount)];
    } else {
      r := timings[..k] + [ResourceTiming(time, amount)] + timings[k..];
    }
    InsertKeepsSorted(timings, time, amount);
  }

  lemma InsertKeepsSorted(s: seq<ResourceTiming>, t: int, amount: int)
    requires StrictlySorted(s)
    ensures StrictlySorted(Insert(s, t, amount))
  {
    FirstAtOrAfterSplits(s, t);
  }

  /** A merge-insert after tick 0 keeps a timeline of future events one. */
  lemma InsertKeepsFuture(s: seq<ResourceTiming>, t: int, amount: int)
    requires Future(s) && t > 0
    ensures Future(Insert(s, t, amount))
  {
    InsertKeepsSorted(s, t, amount);
    var r := Insert(s, t, amount);
    var k := FirstAtOrAfter(s, t);
    forall i | 0 <= i < |r|
      ensures r[i].time > 0
    {
      if !(k < |s| && s[k].time == t) {
        if i < k { assert r[i] == s[i]; } else if i > k { assert r[i] == s[i - 1]; }
      }
    }
  }

  /** An entry already at the tick: only its amount changes, by `+ amount`;
      the length and every other entry stay, and a zero result is kept. */
  lemma InsertMerges(s: seq<ResourceTiming>, t: int, amount: int, i: int)
    requires StrictlySorted(s)
    requires 0 <= i < |s| && s[i].time == t
    ensures Insert(s, t, amount) == s[i := ResourceTiming(t, s[i].amount + amount)]
  {
    FirstAtOrAfterSplits(s, t);
    assert FirstAtOrAfter(s, t) == i;
  }

  /** No entry at the tick: the result is sorted and holds exactly the old
      entries plus the one new entry `{t, amount}`. */
  lemma InsertAdds(s: seq<ResourceTiming>, t: int, amount: int)
    requires StrictlySorted(s)
    requires !HasTime(s, t)
    ensures var r := Insert(s, t, amount);
      |r| == |s| + 1 && StrictlySorted(r) &&
      multiset(r) == multiset(s) + multiset{ResourceTiming(t, amount)}
  {
    var k := FirstAtOrAfter(s, t);
    InsertKeepsSorted(s, t, amount);
    assert s == s[..k] + s[k..];
  }

  /** The merge-insert never drops an entry. */
  lemma InsertNeverShrinks(s: seq<ResourceTiming>, t: int, amount: int)
    ensures |Insert(s, t, amount)| >= |s|
    ensures HasTime(Insert(s, t, amount), t)
  {
    var k := FirstAtOrAfter(s, t);
    assert Insert(s, t, amount)[k].time == t;
  }

  /** Sum of the amounts of a timeline. */
  function Sum(s: seq<ResourceTiming>): int
  {
    if s == [] then 0 else Sum(s[..|s| - 1]) + s[|s| - 1].amount
  }

  lemma {:induction false} SumConcat(a: seq<ResourceTiming>, b: seq<ResourceTiming>)
    ensures Sum(a + b) == Sum(a) + Sum(b)
    decreases |b|
  {
    if b == [] {
      assert a + b == a;
    } else {
      var b' := b[..|b| - 1];
      assert (a + b)[..|a + b| - 1] == a + b';
      SumConcat(a, b');
    }
  }

  lemma SumSplice(a: seq<ResourceTiming>, x: ResourceTiming, b: seq<ResourceTiming>)
    ensures Sum(a + [x] + b) == Sum(a) + x.amount + Sum(b)
  {
    SumConcat(a + [x], b);
    SumConcat(a, [x]);
    assert [x][..0] == [];
  }

  /** A merge-insert changes the timeline's total by exactly the inserted amount. */
  lemma InsertSum(s: seq<ResourceTiming>, t: int, amount: int)
    ensures Sum(Insert(s, t, amount)) == Sum(s) + amount
  {
    var k := FirstAtOrAfter(s, t);
    if k < |s| && s[k].time == t {
      var x := ResourceTiming(t, s[k].amount + amount);
      assert s == s[..k] + [s[k]] + s[k + 1..];
      assert Insert(s, t, amount) == s[..k] + [x] + s[k + 1..];
      SumSplice(s[..k], s[k], s[k + 1..]);
      SumSplice(s[..k], x, s[k + 1..]);
    } else {
      var x := ResourceTiming(t, amount);
      assert Insert(s, t, amount) == s[..k] + [x] + s[k..];
      assert s == s[..k] + s[k..];
      SumSplice(s[..k], x, s[k..]);
      SumConcat(s[..k], s[k..]);
    }
  }

  /** The first entry at tick `t`, as `std::find_if` finds it. */
  function FirstWithTime(s: seq<ResourceTiming>, t: int): (i: nat)
    requires HasTime(s, t)
    ensures i < |s| && s[i].time == t
    ensures forall j :: 0 <= j < i ==> s[j].time != t
  {
    if s[0].time == t then 0
    else
      assert HasTime(s[1..], t) by {
        var j :| 0 <= j < |s| && s[j].time == t;
        assert s[1..][j - 1].time == t;
      }
      1 + FirstWithTime(s[1..], t)
  }

  /** The linear search of `removeTaskSupplyOutput`. */
  method FindTime(s: seq<ResourceTiming>, t: int) returns (i: nat)
    requires HasTime(s, t)
    ensures i == FirstWithTime(s, t)
  {
    i := 0;
    while s[i].time != t
      invariant i <= FirstWithTime(s, t)
      decreases FirstWithTime(s, t) - i
    {
      i := i + 1;
    }
  }

  /** Removal of an output: the entry at `t` takes `+ amount` and is erased
      when it reaches zero. */
  function OutputRemoved(s: seq<ResourceTiming>, t: int, amount: int): seq<ResourceTiming>
    requires HasTime(s, t)
  {
    var i := FirstWithTime(s, t);
    var a := s[i].amount + amount;
    if a == 0 then s[..i] + s[i + 1..] else s[i := ResourceTiming(t, a)]
  }

  lemma OutputRemovedKeepsSorted(s: seq<ResourceTiming>, t: int, amount: int)
    requires StrictlySorted(s) && HasTime(s, t)
    ensures StrictlySorted(OutputRemoved(s, t, amount))
    ensures |OutputRemoved(s, t, amount)| == |s| || |OutputRemoved(s, t, amount)| == |s| - 1
  {
    var i := FirstWithTime(s, t);
    var r := OutputRemoved(s, t, amount);
    if s[i].amount + amount == 0 {
      forall a, b | 0 <= a < b < |r| ensures r[a].time < r[b].time {
        var a' := if a < i then a else a + 1;
        var b' := if b < i then b else b + 1;
        assert r[a] == s[a'] && r[b] == s[b'];
      }
    }
  }

  /** Adding a permanent output and then removing the same output gives the
      timeline back, unless a zero-amount entry already sat at that tick. */
  lemma RemoveAfterAdd(s: seq<ResourceTiming>, t: int, amount: int)
    requires StrictlySorted(s)
    requires forall i :: 0 <= i < |s| && s[i].time == t ==> s[i].amount != 0
    ensures HasTime(Insert(s, t, -amount), t)
    ensures OutputRemoved(Insert(s, t, -amount), t, amount) == s
  {
    InsertNeverShrinks(s, t, -amount);
    if HasTime(s, t) {
      var i :| 0 <= i < |s| && s[i].time == t;
      RemoveAfterMerge(s, t, amount, i);
    } else {
      RemoveAfterNewEntry(s, t, amount);
    }
  }

  lemma RemoveAfterMerge(s: seq<ResourceTiming>, t: int, amount: int, i: nat)
    requires StrictlySorted(s) && i < |s| && s[i].time == t && s[i].amount != 0
    requires HasTime(Insert(s, t, -amount), t)
    ensures OutputRemoved(Insert(s, t, -amount), t, amount) == s
  {
    var r := Insert(s, t, -amount);
    InsertMerges(s, t, -amount, i);
    var j := FirstWithTime(r, t);
    assert j == i by {
      assert r[j].time == s[j].time;
    }
    assert r[i := ResourceTiming(t, r[i].amount + amount)] == s;
  }

  lemma RemoveAfterNewEntry(s: seq<ResourceTiming>, t: int, amount: int)
    requires StrictlySorted(s) && !HasTime(s, t)
    requires HasTime(Insert(s, t, -amount), t)
    ensures OutputRemoved(Insert(s, t, -amount), t, amount) == s
  {
    var r := Insert(s, t, -amount);
    var k := FirstAtOrAfter(s, t);
    assert r == s[..k] + [ResourceTiming(t, -amount)] + s[k..];
    assert r[k].time == t;
    InsertKeepsSorted(s, t, -amount);
    var j := FirstWithTime(r, t);
    assert j == k by {
      assert r[j].time == r[k].time;
    }
    assert r[..k] == s[..k] && r[k + 1..] == s[k..];
    assert s[..k] + s[k..] == s;
  }

  /** A merge-insert keeps every tick the timeline already had. */
  lemma InsertKeepsTimes(s: seq<ResourceTiming>, t: int, amount: int, x: int)
    requires HasTime(s, x)
    ensures HasTime(Insert(s, t, amount), x)
  {
    var i :| 0 <= i < |s| && s[i].time == x;
    var k := FirstAtOrAfter(s, t);
    var r := Insert(s, t, amount);
    if k < |s| && s[k].time == t {
      assert r[i].time == x;
    } else if i < k {
      assert r[i].time == x;
    } else {
      assert r[i + 1].time == x;
    }
  }

  /** A zero-amount entry at the tick breaks the round trip: it is erased. */
  lemma RemoveAfterAddErasesZeroEntry()
    ensures Insert([ResourceTiming(7, 0)], 7, -5) == [ResourceTiming(7, -5)]
    ensures HasTime([ResourceTiming(7, -5)], 7)
    ensures OutputRemoved([ResourceTiming(7, -5)], 7, 5) == []
  {
    assert FirstAtOrAfter([ResourceTiming(7, 0)], 7) == 0;
    assert [ResourceTiming(7, -5)][0].time == 7;
  }

  /** Two inserts at one tick merge into one entry, and an insert that
      cancels it leaves a zero-amount entry in place. */
  lemma MergeExample()
    ensures Insert(Insert([], 7, 10), 7, 5) == [ResourceTiming(7, 15)]
    ensures Insert([ResourceTiming(7, 15)], 7, -15) == [ResourceTiming(7, 0)]
  {
    assert Insert([], 7, 10) == [ResourceTiming(7, 10)];
    assert FirstAtOrAfter([ResourceTiming(7, 10)], 7) == 0;
    assert FirstAtOrAfter([ResourceTiming(7, 15)], 7) == 0;
  }
}
