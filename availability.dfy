/**
 The two read-only scans of the resource manager over a timeline: the
 earliest tick at which a requested amount can be committed and stay
 committed through every known future event, and the projected free amount
 at a given tick. Free amounts and accrual rates are exact reals.
 */
module Availability {
  import opened Timeline

  /** `std::ceil` on an exact real. */
  function Ceil(x: real): (c: int)
    ensures c as real - 1.0 < x <= c as real
  {
    -((-x).Floor)
  }

  /** The C++ conversion of a floating value to `int`: truncation toward zero. */
  function Trunc(x: real): (n: int)
    ensures 0.0 <= x ==> 0 <= n && n as real <= x < n as real + 1.0
    ensures x < 0.0 ==> n <= 0 && n as real - 1.0 < x <= n as real
  {
    if x >= 0.0 then x.Floor else -((-x).Floor)
  }

  function Min(a: int, b: int): int
  {
    if a <= b then a else b
  }

  /** What `ticks` ticks at `rate` per tick accrue: `ticks * rate`, spelled
      out by recursion so that the proofs about scans stay in linear arithmetic. */
  function Accrual(ticks: int, rate: real): real
    decreases if ticks < 0 then -ticks else ticks
  {
    if ticks == 0 then 0.0
    else if ticks > 0 then Accrual(ticks - 1, rate) + rate
    else Accrual(ticks + 1, rate) - rate
  }

  lemma {:induction false} AccrualIsProduct(ticks: int, rate: real)
    ensures Accrual(ticks, rate) == ticks as real * rate
    decreases if ticks < 0 then -ticks else ticks
  {
    if ticks > 0 {
      AccrualIsProduct(ticks - 1, rate);
    } else if ticks < 0 {
      AccrualIsProduct(ticks + 1, rate);
    }
  }

  lemma AccrualAdds(a: int, b: int, rate: real)
    ensures Accrual(a + b, rate) == Accrual(a, rate) + Accrual(b, rate)
  {
    AccrualIsProduct(a, rate);
    AccrualIsProduct(b, rate);
    AccrualIsProduct(a + b, rate);
    assert (a + b) as real * rate == a as real * rate + b as real * rate;
  }

  /** The tick of the `j`-th event, or 0 before the first. */
  function TimeAfter(s: seq<ResourceTiming>, j: nat): int
    requires j <= |s|
  {
    if j == 0 then 0 else s[j - 1].time
  }

  /** The balance after the first `j` events with nothing committed: the
      starting free amount, less every event amount so far, plus the accrual
      from tick 0 up to the `j`-th event. */
  function Balance(free: real, rate: real, s: seq<ResourceTiming>, j: nat): real
    requires j <= |s|
  {
    free - Sum(s[..j]) as real + Accrual(TimeAfter(s, j), rate)
  }

  /** One more event: its amount comes off and the accrual since the
      previous event (at tick `last`) comes in. */
  lemma BalanceStep(free: real, rate: real, s: seq<ResourceTiming>, j: nat, last: int)
    requires j < |s| && last == TimeAfter(s, j)
    ensures Balance(free, rate, s, j + 1)
         == Balance(free, rate, s, j) - s[j].amount as real + Accrual(s[j].time - last, rate)
  {
    assert s[..j + 1][..j] == s[..j];
    AccrualAdds(last, s[j].time - last, rate);
  }

  // ---------------------------------------------------------------------
  // earliestAvailability

  /** The scan's locals: `free_amount`, `currently_available`,
      `earliest_time` and `last_time`. */
  datatype ScanState = ScanState(free: real, available: bool, earliest: int, lastTime: int)

  /** Before the first event: commit at once if the free amount covers the requirement. */
  function ScanStart(required: int, free: real): ScanState
  {
    if free >= required as real then ScanState(free - required as real, true, 0, 0)
    else ScanState(free, false, 0, 0)
  }

  /** One event: apply its amount and the accrual since the last event, then
      commit (with the tick interpolated when the rate is positive) or
      withdraw a commitment the event drove negative. */
  function ScanStep(required: int, rate: real, st: ScanState, tp: ResourceTiming): ScanState
  {
    var f := st.free - tp.amount as real + Accrual(tp.time - st.lastTime, rate);
    if !st.available then
      if f >= required as real then
        var earliest :=
          if rate > 0.0 then Min(st.lastTime + Ceil(-(st.free - required as real) / rate), tp.time)
          else tp.time;
        ScanState(f - required as real, true, earliest, tp.time)
      else
        ScanState(f, false, st.earliest, tp.time)
    else if f < 0.0 then
      ScanState(f + required as real, false, st.earliest, tp.time)
    else
      ScanState(f, true, st.earliest, tp.time)
  }

  /** The scan state after the first `j` events. */
  function ScanTo(required: int, free: real, rate: real, s: seq<ResourceTiming>, j: nat): ScanState
    requires j <= |s|
  {
    if j == 0 then ScanStart(required, free)
    else ScanStep(required, rate, ScanTo(required, free, rate, s, j - 1), s[j - 1])
  }

  /** After the last event: the committed tick, "never" without a positive
      rate, or the tick the rate alone closes the deficit. */
  function ScanResult(required: int, rate: real, st: ScanState): int
  {
    if st.available then st.earliest
    else if rate <= 0.0 then MaxTime
    else st.lastTime + Ceil(-(st.free - required as real) / rate)
  }

  /** What `earliestAvailability` returns. */
  function Earliest(required: int, free: real, rate: real, s: seq<ResourceTiming>): int
  {
    ScanResult(required, rate, ScanTo(required, free, rate, s, |s|))
  }

  /** The body of the scan loop: one event. */
  method ScanEvent(required: int, rate: real, freeAmount: real, available: bool, earliest: int, lastTime: int, tp: ResourceTiming)
    returns (freeAmount': real, available': bool, earliest': int, lastTime': int)
    ensures ScanState(freeAmount', available', earliest', lastTime')
         == ScanStep(required, rate, ScanState(freeAmount, available, earliest, lastTime), tp)
  {
    var previousFree := freeAmount;
    freeAmount' := freeAmount - tp.amount as real;
    var timePassed := tp.time - lastTime;
    freeAmount' := freeAmount' + timePassed as real * rate;
    AccrualIsProduct(timePassed, rate);
    available', earliest' := available, earliest;
    if !available {
      if freeAmount' >= required as real {
        freeAmount' := freeAmount' - required as real;
        available' := true;
        if rate > 0.0 {
          previousFree := previousFree - required as real;
          earliest' := Min(lastTime + Ceil(-previousFree / rate), tp.time);
        } else {
          earliest' := tp.time;
        }
      }
    } else if freeAmount' < 0.0 {
      available' := false;
      freeAmount' := freeAmount' + required as real;
    }
    lastTime' := tp.time;
  }

  /** The loop of `earliestAvailability`. */
  method EarliestAvailability(required: int, free: real, rate: real, timings: seq<ResourceTiming>)
    returns (earliest: int)
    ensures earliest == Earliest(required, free, rate, timings)
  {
    var freeAmount := free;
    var available := false;
    if freeAmount >= required as real {
      freeAmount := freeAmount - required as real;
      available := true;
    }
    earliest := 0;
    var lastTime := 0;
    var i := 0;
    while i < |timings|
      invariant 0 <= i <= |timings|
      invariant ScanTo(required, free, rate, timings, i) == ScanState(freeAmount, available, earliest, lastTime)
    {
      freeAmount, available, earliest, lastTime :=
        ScanEvent(required, rate, freeAmount, available, earliest, lastTime, timings[i]);
      i := i + 1;
    }
    if !available {
      if rate <= 0.0 {
        return MaxTime;
      }
      freeAmount := freeAmount - required as real;
      earliest := lastTime + Ceil(-freeAmount / rate);
    }
  }

  /** Given that the balance after event `j` covers the requirement, the first
      event index from which the balance covers it through event `j`. */
  function RunStart(required: int, free: real, rate: real, s: seq<ResourceTiming>, j: nat): (k: nat)
    requires j <= |s| && Balance(free, rate, s, j) >= required as real
    ensures k <= j
    ensures forall i :: k <= i <= j ==> Balance(free, rate, s, i) >= required as real
    ensures k > 0 ==> Balance(free, rate, s, k - 1) < required as real
  {
    if j > 0 && Balance(free, rate, s, j - 1) >= required as real then
      RunStart(required, free, rate, s, j - 1)
    else
      j
  }

  /** The tick at which a commitment starting at event index `k` is reported:
      0 for the start, otherwise the `k`-th event's tick, or, with a positive
      rate, the first tick after the previous event at which accrual alone
      covers the requirement, if that comes sooner. */
  function CommitTick(required: int, free: real, rate: real, s: seq<ResourceTiming>, k: nat): int
    requires k <= |s|
  {
    if k == 0 then 0
    else if rate > 0.0 then
      Min(TimeAfter(s, k - 1) + Ceil(-(Balance(free, rate, s, k - 1) - required as real) / rate), s[k - 1].time)
    else s[k - 1].time
  }

  /** The earliest tick stated without the scan: if the final balance covers
      the requirement, the commit tick of the last unbroken run of covering
      balances; otherwise "never" without a positive rate, or the tick at
      which accrual after the last event covers it. */
  function EarliestReference(required: int, free: real, rate: real, s: seq<ResourceTiming>): int
  {
    var b := Balance(free, rate, s, |s|);
    if b >= required as real then CommitTick(required, free, rate, s, RunStart(required, free, rate, s, |s|))
    else if rate <= 0.0 then MaxTime
    else TimeAfter(s, |s|) + Ceil(-(b - required as real) / rate)
  }

  /** The scan's state after `j` events, in terms of balances: the flag is
      exactly "the balance covers the requirement", the free amount has the
      requirement taken out while committed, and the committed tick belongs to
      the start of the current run. */
  lemma {:induction false} ScanTracksBalance(required: int, free: real, rate: real, s: seq<ResourceTiming>, j: nat)
    requires j <= |s|
    ensures var st, b := ScanTo(required, free, rate, s, j), Balance(free, rate, s, j);
      && st.lastTime == TimeAfter(s, j)
      && st.available == (b >= required as real)
      && st.free == (if st.available then b - required as real else b)
      && (st.available ==> st.earliest == CommitTick(required, free, rate, s, RunStart(required, free, rate, s, j)))
  {
    if j > 0 {
      ScanTracksBalance(required, free, rate, s, j - 1);
      var st := ScanTo(required, free, rate, s, j - 1);
      BalanceStep(free, rate, s, j - 1, st.lastTime);
      StepTracksBalance(required, rate, st, s[j - 1], Balance(free, rate, s, j - 1), Balance(free, rate, s, j));
    } else {
      assert s[..0] == [];
    }
  }

  /** One event in terms of the uncommitted balance `b` before it. */
  lemma StepTracksBalance(required: int, rate: real, st: ScanState, tp: ResourceTiming, b: real, b': real)
    requires st.available == (b >= required as real)
    requires st.free == (if st.available then b - required as real else b)
    requires b' == b - tp.amount as real + Accrual(tp.time - st.lastTime, rate)
    ensures var st' := ScanStep(required, rate, st, tp);
      && st'.lastTime == tp.time
      && st'.available == (b' >= required as real)
      && st'.free == (if st'.available then b' - required as real else b')
      && (st'.available && st.available ==> st'.earliest == st.earliest)
      && (st'.available && !st.available ==>
            st'.earliest == if rate > 0.0 then Min(st.lastTime + Ceil(-(b - required as real) / rate), tp.time) else tp.time)
  {
  }

  /** The scan computes the reference definition. */
  lemma EarliestMeaning(required: int, free: real, rate: real, s: seq<ResourceTiming>)
    ensures Earliest(required, free, rate, s) == EarliestReference(required, free, rate, s)
  {
    ScanTracksBalance(required, free, rate, s, |s|);
  }

  /** Loop invariant: while nothing is committed, the free amount is short of the requirement. */
  lemma UncommittedIsShort(required: int, free: real, rate: real, s: seq<ResourceTiming>, j: nat)
    requires j <= |s|
    ensures !ScanTo(required, free, rate, s, j).available ==> ScanTo(required, free, rate, s, j).free < required as real
  {
    ScanTracksBalance(required, free, rate, s, j);
  }

  /** With an empty timeline: 0 if the free amount covers the requirement,
      "never" without a positive rate, otherwise the ceiling of deficit over rate. */
  lemma EarliestEmptyTimeline(required: int, free: real, rate: real)
    ensures Earliest(required, free, rate, []) ==
      if free >= required as real then 0
      else if rate <= 0.0 then MaxTime
      else Ceil((required as real - free) / rate)
  {
  }

  /** On a timeline of future events, a tick found mid-scan with a positive
      rate lies after the previous event and no later than the event that
      completed the commitment. */
  lemma EarliestMidScanBounds(required: int, free: real, rate: real, s: seq<ResourceTiming>)
    requires Future(s) && rate > 0.0
    requires Balance(free, rate, s, |s|) >= required as real
    requires RunStart(required, free, rate, s, |s|) > 0
    ensures var k := RunStart(required, free, rate, s, |s|);
      TimeAfter(s, k - 1) < Earliest(required, free, rate, s) <= s[k - 1].time
  {
    EarliestMeaning(required, free, rate, s);
    var k := RunStart(required, free, rate, s, |s|);
    var c := Ceil(-(Balance(free, rate, s, k - 1) - required as real) / rate);
    CeilOfPositiveQuotient(-(Balance(free, rate, s, k - 1) - required as real), rate);
    assert EarliestReference(required, free, rate, s) == Min(TimeAfter(s, k - 1) + c, s[k - 1].time);
    assert TimeAfter(s, k - 1) < s[k - 1].time;
  }

  /** A tick extrapolated after the scan lies strictly after the last event. */
  lemma EarliestExtrapolatedBounds(required: int, free: real, rate: real, s: seq<ResourceTiming>)
    requires rate > 0.0
    requires Balance(free, rate, s, |s|) < required as real
    ensures Earliest(required, free, rate, s) > TimeAfter(s, |s|)
  {
    EarliestMeaning(required, free, rate, s);
    CeilOfPositiveQuotient(-(Balance(free, rate, s, |s|) - required as real), rate);
  }

  /** Where a tick reported by the scan lies, with a positive rate: inside the
      interval closed by the event that starts the final covering run, or
      after the last event when the timeline ends short. */
  predicate MidScanBounded(required: int, free: real, rate: real, s: seq<ResourceTiming>, t: int)
  {
    rate > 0.0 ==>
      if Balance(free, rate, s, |s|) >= required as real then
        var k := RunStart(required, free, rate, s, |s|);
        k > 0 ==> TimeAfter(s, k - 1) < t <= s[k - 1].time
      else t > TimeAfter(s, |s|)
  }

  lemma ScanBounds(required: int, free: real, rate: real, s: seq<ResourceTiming>)
    requires Future(s)
    ensures MidScanBounded(required, free, rate, s, Earliest(required, free, rate, s))
  {
    if rate > 0.0 {
      if Balance(free, rate, s, |s|) >= required as real {
        if RunStart(required, free, rate, s, |s|) > 0 {
          EarliestMidScanBounds(required, free, rate, s);
        }
      } else {
        EarliestExtrapolatedBounds(required, free, rate, s);
      }
    }
  }

  lemma CeilOfPositiveQuotient(x: real, rate: real)
    requires x > 0.0 && rate > 0.0
    ensures Ceil(x / rate) >= 1
  {
    assert x / rate > 0.0;
  }

  /** Without a positive rate the result is 0, the tick of an event, or "never". */
  lemma EarliestNonPositiveRate(required: int, free: real, rate: real, s: seq<ResourceTiming>)
    requires rate <= 0.0
    ensures var r := Earliest(required, free, rate, s);
      r == 0 || r == MaxTime || exists i :: 0 <= i < |s| && r == s[i].time
  {
    EarliestMeaning(required, free, rate, s);
    if Balance(free, rate, s, |s|) >= required as real {
      var k := RunStart(required, free, rate, s, |s|);
      if k > 0 {
        assert Earliest(required, free, rate, s) == s[k - 1].time;
      }
    }
  }

  /** Without a positive rate, a reported tick is where the commitment starts
      to hold for good: the balance covers the requirement from that event
      through the last one, and did not just before it. Otherwise the result is "never". */
  lemma EarliestSustained(required: int, free: real, rate: real, s: seq<ResourceTiming>)
    requires rate <= 0.0
    ensures var r, n := Earliest(required, free, rate, s), |s|;
      if Balance(free, rate, s, n) >= required as real then
        var k := RunStart(required, free, rate, s, n);
        && r == TimeAfter(s, k)
        && (forall i :: k <= i <= n ==> Balance(free, rate, s, i) >= required as real)
        && (k > 0 ==> Balance(free, rate, s, k - 1) < required as real)
      else r == MaxTime
  {
    EarliestMeaning(required, free, rate, s);
  }

  // ---------------------------------------------------------------------
  // A production event after the earliest tick

  /** Two timelines with the same first `m` events have the same balances
      over them. */
  lemma SharedPrefixBalance(free: real, rate: real, s: seq<ResourceTiming>, r: seq<ResourceTiming>, m: nat, j: nat)
    requires m <= |s| && m <= |r| && r[..m] == s[..m] && j <= m
    ensures TimeAfter(r, j) == TimeAfter(s, j)
    ensures Balance(free, rate, r, j) == Balance(free, rate, s, j)
  {
    assert r[..j] == r[..m][..j];
    assert s[..j] == s[..m][..j];
    if j > 0 {
      assert r[j - 1] == r[..m][j - 1];
      assert s[j - 1] == s[..m][j - 1];
    }
  }

  /** Merged into an existing entry: every balance behind the position is
      lowered by the inserted amount. */
  lemma InsertBalanceMerged(free: real, rate: real, s: seq<ResourceTiming>, r: seq<ResourceTiming>, a: int, m: nat, j: nat)
    requires m < j <= |s| && r == s[m := ResourceTiming(s[m].time, s[m].amount + a)]
    ensures Balance(free, rate, r, j) == Balance(free, rate, s, j) - a as real
  {
    var x := ResourceTiming(s[m].time, s[m].amount + a);
    assert r[..j] == s[..m] + [x] + s[m + 1..j];
    assert s[..j] == s[..m] + [s[m]] + s[m + 1..j];
    SumSplice(s[..m], x, s[m + 1..j]);
    SumSplice(s[..m], s[m], s[m + 1..j]);
    assert r[j - 1].time == s[j - 1].time;
  }

  /** A new entry: every later balance moves one index right and is lowered
      by the inserted amount. */
  lemma InsertBalanceShifted(free: real, rate: real, s: seq<ResourceTiming>, r: seq<ResourceTiming>, t: int, a: int, m: nat, j: nat)
    requires m < j <= |s| && r == s[..m] + [ResourceTiming(t, a)] + s[m..]
    ensures Balance(free, rate, r, j + 1) == Balance(free, rate, s, j) - a as real
  {
    var x := ResourceTiming(t, a);
    assert r[..j + 1] == s[..m] + [x] + s[m..j];
    assert s[..j] == s[..m] + s[m..j];
    SumSplice(s[..m], x, s[m..j]);
    SumConcat(s[..m], s[m..j]);
    assert r[j] == s[j - 1];
  }

  /** The balance after a new entry: the one before it, less its amount, plus
      the accrual since the previous event. */
  lemma InsertBalanceNewEntry(free: real, rate: real, s: seq<ResourceTiming>, r: seq<ResourceTiming>, t: int, a: int, m: nat)
    requires m <= |s| && r == s[..m] + [ResourceTiming(t, a)] + s[m..]
    ensures Balance(free, rate, r, m + 1) == Balance(free, rate, s, m) - a as real + Accrual(t - TimeAfter(s, m), rate)
  {
    assert r[..m] == s[..m];
    SharedPrefixBalance(free, rate, s, r, m, m);
    assert r[m] == ResourceTiming(t, a);
    BalanceStep(free, rate, r, m, TimeAfter(s, m));
  }

  lemma AccrualNonNegative(ticks: int, rate: real)
    requires ticks >= 0 && rate >= 0.0
    ensures Accrual(ticks, rate) >= 0.0
  {
    AccrualIsProduct(ticks, rate);
  }

  /** Accrual over at least the interpolated number of ticks covers the deficit. */
  lemma AccrualCovers(ticks: int, deficit: real, rate: real)
    requires rate > 0.0 && ticks >= Ceil(deficit / rate)
    ensures Accrual(ticks, rate) >= deficit
  {
    AccrualIsProduct(ticks, rate);
    var q := deficit / rate;
    assert q * rate == deficit;
    var gap := ticks as real - q;
    assert gap >= 0.0;
    ProductNonNegative(gap, rate);
    assert ticks as real * rate == q * rate + gap * rate;
  }

  /** A product of two non-negative reals is non-negative. */
  lemma ProductNonNegative(x: real, y: real)
    requires x >= 0.0 && y >= 0.0
    ensures x * y >= 0.0
  {
  }

  /** Any index that opens a covering run through `j`, after a short balance,
      is the run's start. */
  lemma RunStartIs(required: int, free: real, rate: real, s: seq<ResourceTiming>, j: nat, k: nat)
    requires k <= j <= |s|
    requires forall i :: k <= i <= j ==> Balance(free, rate, s, i) >= required as real
    requires k > 0 ==> Balance(free, rate, s, k - 1) < required as real
    ensures Balance(free, rate, s, j) >= required as real
    ensures RunStart(required, free, rate, s, j) == k
  {
  }

  /** The commit tick of a run start depends only on the events before it. */
  lemma CommitTickSamePrefix(required: int, free: real, rate: real, s: seq<ResourceTiming>, r: seq<ResourceTiming>, k: nat)
    requires k <= |s| && k <= |r|
    requires k > 0 ==> TimeAfter(r, k - 1) == TimeAfter(s, k - 1) && TimeAfter(r, k) == TimeAfter(s, k)
    requires k > 0 ==> Balance(free, rate, r, k - 1) == Balance(free, rate, s, k - 1)
    ensures CommitTick(required, free, rate, r, k) == CommitTick(required, free, rate, s, k)
  {
  }

  /** `r` is `s` with a production of `p` merged in at tick `t` and position
      `m`, in terms of balances: those up to `m` stay, every later one moves
      `d` places right (0 on a merge, 1 for a new entry) and rises by `p`, and
      a new entry adds the accrual up to its tick. */
  predicate Raised(free: real, rate: real, s: seq<ResourceTiming>, r: seq<ResourceTiming>, t: int, p: int, m: nat, d: nat)
  {
    && d <= 1 && m <= |s| && |r| == |s| + d && m < |r| && r[m].time == t
    && (forall j {:trigger TimeAfter(r, j)} :: 0 <= j <= m ==> TimeAfter(r, j) == TimeAfter(s, j))
    && (forall j {:trigger Balance(free, rate, r, j)} :: 0 <= j <= m ==> Balance(free, rate, r, j) == Balance(free, rate, s, j))
    && (forall i :: m + d < i <= |r| ==> Balance(free, rate, r, i) == Balance(free, rate, s, i - d) + p as real)
    && (d == 1 ==> Balance(free, rate, r, m + 1) == Balance(free, rate, s, m) + p as real + Accrual(t - TimeAfter(s, m), rate))
  }

  /** A production merged into the entry already at its tick. */
  lemma ProductionMerged(free: real, rate: real, s: seq<ResourceTiming>, r: seq<ResourceTiming>, t: int, p: int, m: nat)
    requires m < |s| && s[m].time == t
    requires r == s[m := ResourceTiming(t, s[m].amount - p)]
    ensures Raised(free, rate, s, r, t, p, m, 0)
  {
    assert r[..m] == s[..m];
    forall j | 0 <= j <= m
      ensures TimeAfter(r, j) == TimeAfter(s, j) && Balance(free, rate, r, j) == Balance(free, rate, s, j)
    {
      SharedPrefixBalance(free, rate, s, r, m, j);
    }
    forall i | m < i <= |r|
      ensures Balance(free, rate, r, i) == Balance(free, rate, s, i) + p as real
    {
      InsertBalanceMerged(free, rate, s, r, -p, m, i);
    }
  }

  /** A production that opens a new entry at its tick. */
  lemma ProductionNewEntry(free: real, rate: real, s: seq<ResourceTiming>, r: seq<ResourceTiming>, t: int, p: int, m: nat)
    requires m <= |s| && r == s[..m] + [ResourceTiming(t, -p)] + s[m..]
    ensures Raised(free, rate, s, r, t, p, m, 1)
  {
    assert r[..m] == s[..m];
    forall j | 0 <= j <= m
      ensures TimeAfter(r, j) == TimeAfter(s, j) && Balance(free, rate, r, j) == Balance(free, rate, s, j)
    {
      SharedPrefixBalance(free, rate, s, r, m, j);
    }
    forall i | m + 1 < i <= |r|
      ensures Balance(free, rate, r, i) == Balance(free, rate, s, i - 1) + p as real
    {
      InsertBalanceShifted(free, rate, s, r, t, -p, m, i - 1);
    }
    InsertBalanceNewEntry(free, rate, s, r, t, -p, m);
  }

  /** Any production merged in: the balances rise behind its position. */
  lemma ProductionBalances(free: real, rate: real, s: seq<ResourceTiming>, t: int, p: int)
    ensures var m := FirstAtOrAfter(s, t);
      Raised(free, rate, s, Insert(s, t, -p), t, p, m, if m < |s| && s[m].time == t then 0 else 1)
  {
    var m := FirstAtOrAfter(s, t);
    if m < |s| && s[m].time == t {
      ProductionMerged(free, rate, s, Insert(s, t, -p), t, p, m);
    } else {
      ProductionNewEntry(free, rate, s, Insert(s, t, -p), t, p, m);
    }
  }

  /** Raising `s` behind `m` keeps every covering balance from `k` on
      covering, and the new entry covers when the one before it did or when
      the accrual up to its tick makes up the shortfall. */
  lemma RaisedCovers(required: int, free: real, rate: real, s: seq<ResourceTiming>, r: seq<ResourceTiming>, t: int, p: int, m: nat, d: nat, k: nat)
    requires p >= 0 && Raised(free, rate, s, r, t, p, m, d)
    requires k <= m + 1 && forall i :: k <= i <= |s| ==> Balance(free, rate, s, i) >= required as real
    requires d == 1 ==> Balance(free, rate, s, m) + Accrual(t - TimeAfter(s, m), rate) >= required as real
    ensures forall i :: k <= i <= |r| ==> Balance(free, rate, r, i) >= required as real
  {
    forall i | k <= i <= |r|
      ensures Balance(free, rate, r, i) >= required as real
    {
      if i <= m {
        assert Balance(free, rate, s, i) >= required as real;
      } else if d == 0 || i > m + 1 {
        assert Balance(free, rate, s, i - d) >= required as real;
      }
    }
  }

  /** Two timelines that agree before `k`, where `k` starts the final
      covering run of both: the same earliest tick. */
  lemma SameRunKept(required: int, free: real, rate: real, s: seq<ResourceTiming>, r: seq<ResourceTiming>, k: nat)
    requires Balance(free, rate, s, |s|) >= required as real
    requires k == RunStart(required, free, rate, s, |s|) && k <= |r|
    requires forall i :: k <= i <= |r| ==> Balance(free, rate, r, i) >= required as real
    requires k > 0 ==> TimeAfter(r, k - 1) == TimeAfter(s, k - 1) && TimeAfter(r, k) == TimeAfter(s, k)
    requires k > 0 ==> Balance(free, rate, r, k - 1) == Balance(free, rate, s, k - 1)
    ensures EarliestReference(required, free, rate, r) == EarliestReference(required, free, rate, s)
  {
    RunStartIs(required, free, rate, r, |r|, k);
    CommitTickSamePrefix(required, free, rate, s, r, k);
  }

  /** A timeline that agrees with `s` up to a short balance at `m`, and
      covers from there on: its earliest tick is interpolated from that
      balance. */
  lemma InterpolationKept(required: int, free: real, rate: real, s: seq<ResourceTiming>, r: seq<ResourceTiming>, m: nat)
    requires rate > 0.0 && m <= |s| && m < |r|
    requires TimeAfter(r, m) == TimeAfter(s, m) && Balance(free, rate, r, m) == Balance(free, rate, s, m)
    requires Balance(free, rate, s, m) < required as real
    requires TimeAfter(s, m) + Ceil(-(Balance(free, rate, s, m) - required as real) / rate) < r[m].time
    requires forall i :: m < i <= |r| ==> Balance(free, rate, r, i) >= required as real
    ensures EarliestReference(required, free, rate, r)
         == TimeAfter(s, m) + Ceil(-(Balance(free, rate, s, m) - required as real) / rate)
  {
    RunStartIs(required, free, rate, r, |r|, m + 1);
  }

  /** A timeline raised behind `m` keeps a final covering run of `s` that
      starts at or before `m`, and with it the commit tick. */
  lemma RaisedRunKept(required: int, free: real, rate: real, s: seq<ResourceTiming>, r: seq<ResourceTiming>, t: int, p: int, m: nat, d: nat)
    requires rate >= 0.0 && p >= 0
    requires Raised(free, rate, s, r, t, p, m, d)
    requires TimeAfter(s, m) <= t
    requires Balance(free, rate, s, |s|) >= required as real
    requires RunStart(required, free, rate, s, |s|) <= m
    ensures EarliestReference(required, free, rate, r) == EarliestReference(required, free, rate, s)
  {
    var k := RunStart(required, free, rate, s, |s|);
    AccrualNonNegative(t - TimeAfter(s, m), rate);
    RaisedCovers(required, free, rate, s, r, t, p, m, d, k);
    SameRunKept(required, free, rate, s, r, k);
  }

  /** A timeline raised behind `m`, at a tick after the one interpolated from
      the short balance at `m`, when every later balance of `s` covers the
      requirement: its earliest tick is that interpolated tick. */
  lemma RaisedInterpolationKept(required: int, free: real, rate: real, s: seq<ResourceTiming>, r: seq<ResourceTiming>, t: int, p: int, m: nat, d: nat)
    requires rate > 0.0 && p >= 0
    requires Raised(free, rate, s, r, t, p, m, d)
    requires Balance(free, rate, s, m) < required as real
    requires forall i :: m < i <= |s| ==> Balance(free, rate, s, i) >= required as real
    requires TimeAfter(s, m) + Ceil(-(Balance(free, rate, s, m) - required as real) / rate) < t
    ensures EarliestReference(required, free, rate, r)
         == TimeAfter(s, m) + Ceil(-(Balance(free, rate, s, m) - required as real) / rate)
  {
    var deficit := -(Balance(free, rate, s, m) - required as real);
    CeilOfPositiveQuotient(deficit, rate);
    AccrualCovers(t - TimeAfter(s, m), deficit, rate);
    RaisedCovers(required, free, rate, s, r, t, p, m, d, m + 1);
    InterpolationKept(required, free, rate, s, r, m);
  }

  /** A production at a tick after the earliest one, when the final covering
      run starts at or before its position: the run and its commit tick stay. */
  lemma CoveredRunKept(required: int, free: real, rate: real, s: seq<ResourceTiming>, t: int, p: int)
    requires rate >= 0.0 && p >= 0
    requires Balance(free, rate, s, |s|) >= required as real
    requires RunStart(required, free, rate, s, |s|) <= FirstAtOrAfter(s, t)
    requires TimeAfter(s, FirstAtOrAfter(s, t)) <= t
    ensures EarliestReference(required, free, rate, Insert(s, t, -p)) == EarliestReference(required, free, rate, s)
  {
    var m := FirstAtOrAfter(s, t);
    ProductionBalances(free, rate, s, t, p);
    RaisedRunKept(required, free, rate, s, Insert(s, t, -p), t, p, m, if m < |s| && s[m].time == t then 0 else 1);
  }

  /** A production at a tick after an interpolated earliest tick, placed right
      behind the short balance the interpolation starts from: the new balance
      covers the requirement, and the interpolation reports the same tick. */
  lemma InterpolatedCommitKept(required: int, free: real, rate: real, s: seq<ResourceTiming>, t: int, p: int, m: nat)
    requires rate > 0.0 && p >= 0
    requires m == FirstAtOrAfter(s, t)
    requires Balance(free, rate, s, m) < required as real
    requires forall i :: m < i <= |s| ==> Balance(free, rate, s, i) >= required as real
    requires TimeAfter(s, m) + Ceil(-(Balance(free, rate, s, m) - required as real) / rate) < t
    ensures EarliestReference(required, free, rate, Insert(s, t, -p))
         == TimeAfter(s, m) + Ceil(-(Balance(free, rate, s, m) - required as real) / rate)
  {
    ProductionBalances(free, rate, s, t, p);
    RaisedInterpolationKept(required, free, rate, s, Insert(s, t, -p), t, p, m, if m < |s| && s[m].time == t then 0 else 1);
  }

  /** Position `m` splits `s` at tick `t`: the events before it come before
      `t`, the rest at or after it. */
  predicate SplitAt(s: seq<ResourceTiming>, t: int, m: nat)
  {
    && m <= |s|
    && (forall i :: 0 <= i < m ==> s[i].time < t)
    && (forall i :: m <= i < |s| ==> s[i].time >= t)
  }

  /** A production event (a negative amount) at a tick after the earliest
      tick never moves that tick, as long as the pool does not drain over
      time and the earliest tick is not "never". */
  lemma ProductionAfterEarliestKeepsIt(required: int, free: real, rate: real, s: seq<ResourceTiming>, t: int, p: int)
    requires StrictlySorted(s) && rate >= 0.0 && p >= 0
    requires Earliest(required, free, rate, s) < t
    requires Earliest(required, free, rate, s) < MaxTime
    ensures Earliest(required, free, rate, Insert(s, t, -p)) == Earliest(required, free, rate, s)
  {
    EarliestMeaning(required, free, rate, s);
    EarliestMeaning(required, free, rate, Insert(s, t, -p));
    var m := FirstAtOrAfter(s, t);
    FirstAtOrAfterSplits(s, t);
    assert SplitAt(s, t, m);
    if Balance(free, rate, s, |s|) >= required as real {
      if RunStart(required, free, rate, s, |s|) <= m {
        assert TimeAfter(s, m) <= t;
        CoveredRunKept(required, free, rate, s, t, p);
      } else {
        LateRunKept(required, free, rate, s, t, p);
      }
    } else {
      ShortEndKept(required, free, rate, s, t, p);
    }
  }

  /** A production behind the start of the final covering run keeps the tick
      interpolated before it. */
  lemma LateRunKept(required: int, free: real, rate: real, s: seq<ResourceTiming>, t: int, p: int)
    requires rate >= 0.0 && p >= 0 && SplitAt(s, t, FirstAtOrAfter(s, t))
    requires Balance(free, rate, s, |s|) >= required as real
    requires RunStart(required, free, rate, s, |s|) > FirstAtOrAfter(s, t)
    requires EarliestReference(required, free, rate, s) < t
    ensures EarliestReference(required, free, rate, Insert(s, t, -p)) == EarliestReference(required, free, rate, s)
  {
    var m := FirstAtOrAfter(s, t);
    LateRunInterpolated(required, free, rate, s, t, m);
    InterpolatedCommitKept(required, free, rate, s, t, p, m);
    var e := TimeAfter(s, m) + Ceil(-(Balance(free, rate, s, m) - required as real) / rate);
    assert EarliestReference(required, free, rate, s) == e;
  }

  /** The final covering run starts behind the position of a tick after the
      earliest one: the earliest tick was interpolated from the short balance
      just before that position. */
  lemma LateRunInterpolated(required: int, free: real, rate: real, s: seq<ResourceTiming>, t: int, m: nat)
    requires rate >= 0.0 && SplitAt(s, t, m)
    requires Balance(free, rate, s, |s|) >= required as real
    requires RunStart(required, free, rate, s, |s|) > m
    requires EarliestReference(required, free, rate, s) < t
    ensures m + 1 == RunStart(required, free, rate, s, |s|)
    ensures rate > 0.0 && Balance(free, rate, s, m) < required as real
    ensures TimeAfter(s, m) + Ceil(-(Balance(free, rate, s, m) - required as real) / rate) < t
    ensures EarliestReference(required, free, rate, s)
         == TimeAfter(s, m) + Ceil(-(Balance(free, rate, s, m) - required as real) / rate)
  {
    var k := RunStart(required, free, rate, s, |s|);
    LateCommitInterpolated(required, free, rate, s, t, m, k);
  }

  /** A run start behind the position of a later tick, whose commit tick
      comes before that tick, interpolates from the balance just before the
      position. */
  lemma LateCommitInterpolated(required: int, free: real, rate: real, s: seq<ResourceTiming>, t: int, m: nat, k: nat)
    requires rate >= 0.0 && SplitAt(s, t, m)
    requires m < k <= |s|
    requires Balance(free, rate, s, k - 1) < required as real
    requires CommitTick(required, free, rate, s, k) < t
    ensures k - 1 == m && rate > 0.0
    ensures TimeAfter(s, k - 1) + Ceil(-(Balance(free, rate, s, k - 1) - required as real) / rate) < t
    ensures CommitTick(required, free, rate, s, k)
         == TimeAfter(s, k - 1) + Ceil(-(Balance(free, rate, s, k - 1) - required as real) / rate)
  {
    assert s[k - 1].time >= t;
    var deficit := -(Balance(free, rate, s, k - 1) - required as real);
    assert rate > 0.0;
    CeilOfPositiveQuotient(deficit, rate);
    if k >= 2 {
      assert s[k - 2].time < t;
    }
  }

  /** The final balance falls short: the tick was extrapolated past the last
      event, so the production comes last and covers the requirement at once. */
  lemma ShortEndKept(required: int, free: real, rate: real, s: seq<ResourceTiming>, t: int, p: int)
    requires rate >= 0.0 && p >= 0 && SplitAt(s, t, FirstAtOrAfter(s, t))
    requires Balance(free, rate, s, |s|) < required as real
    requires EarliestReference(required, free, rate, s) < t
    requires EarliestReference(required, free, rate, s) < MaxTime
    ensures EarliestReference(required, free, rate, Insert(s, t, -p)) == EarliestReference(required, free, rate, s)
  {
    var m := FirstAtOrAfter(s, t);
    ShortEndExtrapolated(required, free, rate, s, t, m);
    InterpolatedCommitKept(required, free, rate, s, t, p, m);
    var e := TimeAfter(s, m) + Ceil(-(Balance(free, rate, s, m) - required as real) / rate);
    assert EarliestReference(required, free, rate, s) == e;
  }

  /** A short final balance with an extrapolated tick before `t`: every event
      comes before `t`. */
  lemma ShortEndExtrapolated(required: int, free: real, rate: real, s: seq<ResourceTiming>, t: int, m: nat)
    requires rate >= 0.0 && SplitAt(s, t, m)
    requires Balance(free, rate, s, |s|) < required as real
    requires EarliestReference(required, free, rate, s) < t
    requires EarliestReference(required, free, rate, s) < MaxTime
    ensures m == |s| && rate > 0.0
    ensures TimeAfter(s, |s|) + Ceil(-(Balance(free, rate, s, |s|) - required as real) / rate) < t
    ensures EarliestReference(required, free, rate, s)
         == TimeAfter(s, |s|) + Ceil(-(Balance(free, rate, s, |s|) - required as real) / rate)
  {
    var n := |s|;
    assert rate > 0.0;
    CeilOfPositiveQuotient(-(Balance(free, rate, s, n) - required as real), rate);
    if n > 0 {
      assert s[n - 1].time < t;
    }
  }

  /** With a pool that drains over time the property fails: free 12,
      requirement 10, rate -1 and a release of 1000 at tick 5 give tick 0,
      but a further release of 1 at tick 4 lets the drain withdraw the
      commitment there, and it is only made again at tick 5. */
  lemma ProductionAfterEarliestNegativeRate()
    ensures Earliest(10, 12.0, -1.0, [ResourceTiming(5, -1000)]) == 0
    ensures Insert([ResourceTiming(5, -1000)], 4, -1) == [ResourceTiming(4, -1), ResourceTiming(5, -1000)]
    ensures Earliest(10, 12.0, -1.0, [ResourceTiming(4, -1), ResourceTiming(5, -1000)]) == 5
  {
    var s := [ResourceTiming(4, -1), ResourceTiming(5, -1000)];
    assert ScanTo(10, 12.0, -1.0, s, 1) == ScanState(9.0, false, 0, 4);
  }

  /** A commitment that a later draw drives negative is withdrawn:
      free 100, requirement 60, rate 0, one draw of 50 at tick 5 gives "never". */
  lemma EarliestWithdrawnExample()
    ensures Earliest(60, 100.0, 0.0, [ResourceTiming(5, 50)]) == MaxTime
  {
    var s := [ResourceTiming(5, 50)];
    assert ScanTo(60, 100.0, 0.0, s, 0) == ScanState(40.0, true, 0, 0);
  }

  /** The search continues past a point where the balance falls short:
      free 50, requirement 60, rate 0, a draw of 100 at tick 5 and a release
      of 200 at tick 10 gives tick 10. */
  lemma EarliestRestartExample()
    ensures Earliest(60, 50.0, 0.0, [ResourceTiming(5, 100), ResourceTiming(10, -200)]) == 10
  {
    var s := [ResourceTiming(5, 100), ResourceTiming(10, -200)];
    assert ScanTo(60, 50.0, 0.0, s, 0) == ScanState(50.0, false, 0, 0);
    assert ScanTo(60, 50.0, 0.0, s, 1) == ScanState(-50.0, false, 0, 5);
  }

  // ---------------------------------------------------------------------
  // availabilityAtTime

  /** What `availabilityAtTime` returns: the scan takes the leading events
      with `time <= query` (the first search position for `query + 1`), adds
      the accrual up to `query` if that lies after the last event taken, and
      truncates toward zero. */
  function Projected(query: int, free: real, rate: real, s: seq<ResourceTiming>): int
  {
    var k := FirstAtOrAfter(s, query + 1);
    var last := TimeAfter(s, k);
    Trunc(Balance(free, rate, s, k) + (if query > last then Accrual(query - last, rate) else 0.0))
  }

  /** The loop of `availabilityAtTime`. */
  method AvailabilityAtTime(query: int, free: real, rate: real, timings: seq<ResourceTiming>)
    returns (amount: int)
    ensures amount == Projected(query, free, rate, timings)
  {
    var freeAmount := free;
    var lastTime := 0;
    var i := 0;
    while i < |timings|
      invariant 0 <= i <= |timings|
      invariant forall j :: 0 <= j < i ==> timings[j].time <= query
      invariant lastTime == TimeAfter(timings, i)
      invariant freeAmount == Balance(free, rate, timings, i)
    {
      var tp := timings[i];
      if tp.time > query {
        break;
      }
      BalanceStep(free, rate, timings, i, lastTime);
      freeAmount := freeAmount - tp.amount as real;
      var timePassed := tp.time - lastTime;
      freeAmount := freeAmount + timePassed as real * rate;
      AccrualIsProduct(timePassed, rate);
      lastTime := tp.time;
      i := i + 1;
    }
    FirstAtOrAfterUnique(timings, query + 1, i);
    if query > lastTime {
      var timePassed := query - lastTime;
      freeAmount := freeAmount + timePassed as real * rate;
      AccrualIsProduct(timePassed, rate);
    }
    amount := Trunc(freeAmount);
  }

  /** With an empty timeline and a query at or after tick 0, the result is the
      free amount plus the accrual up to the query, truncated. */
  lemma ProjectedEmptyTimeline(query: int, free: real, rate: real)
    requires query >= 0
    ensures Projected(query, free, rate, []) == Trunc(free + rate * query as real)
  {
    assert FirstAtOrAfter([], query + 1) == 0;
    AccrualIsProduct(query, rate);
  }

  /** Balances over a prefix agree with those over the whole timeline. */
  lemma BalancePrefix(free: real, rate: real, s: seq<ResourceTiming>, k: nat, j: nat)
    requires j <= k <= |s|
    ensures Balance(free, rate, s[..k], j) == Balance(free, rate, s, j)
  {
    assert s[..k][..j] == s[..j];
  }

  /** An event after the query ends the scan: it and everything behind it are ignored. */
  lemma ProjectedIgnoresLater(query: int, free: real, rate: real, s: seq<ResourceTiming>, k: nat)
    requires k < |s| && s[k].time > query
    ensures Projected(query, free, rate, s) == Projected(query, free, rate, s[..k])
  {
    var f := FirstAtOrAfter(s, query + 1);
    assert f <= k;
    FirstAtOrAfterUnique(s[..k], query + 1, f);
    BalancePrefix(free, rate, s, k, f);
    if f > 0 {
      assert s[..k][f - 1] == s[f - 1];
    }
  }
}
