/**
 The resource manager: the ledger of reservations for the three pools
 (minerals, gas, supply). Reservations for tick 0 or earlier go to an
 immediate counter per pool; later ones are merged into that pool's task
 timeline. Supply also keeps a timeline of permanent outputs, from which the
 supply timeline is rebuilt once per cycle. The game's balances and the
 unit tracker's supply units are parameters.
 */
module Resources {
  import opened Timeline
  import opened Availability

  /** A supply-providing unit of the local player, as the unit tracker reports it. */
  datatype SupplyUnit = SupplyUnit(existing: bool, completed: bool, timeTillCompleted: int, supplyProvided: int)

  predicate Incomplete(u: SupplyUnit)
  {
    u.existing && !u.completed
  }

  /** The supply timeline after a cycle's rebuild: the permanent outputs, and
      for each existing incomplete unit its supply released at its completion tick. */
  function Rebuilt(output: seq<ResourceTiming>, units: seq<SupplyUnit>): seq<ResourceTiming>
  {
    if units == [] then output
    else
      var prev := Rebuilt(output, units[..|units| - 1]);
      var u := units[|units| - 1];
      if Incomplete(u) then Insert(prev, u.timeTillCompleted, -u.supplyProvided) else prev
  }

  lemma RebuiltStep(output: seq<ResourceTiming>, units: seq<SupplyUnit>, i: nat)
    requires i < |units|
    ensures Incomplete(units[i]) ==>
              Rebuilt(output, units[..i + 1])
              == Insert(Rebuilt(output, units[..i]), units[i].timeTillCompleted, -units[i].supplyProvided)
    ensures !Incomplete(units[i]) ==> Rebuilt(output, units[..i + 1]) == Rebuilt(output, units[..i])
  {
    assert units[..i + 1][..i] == units[..i];
  }

  /** The supply still to come from incomplete units. */
  function PendingSupply(units: seq<SupplyUnit>): int
  {
    if units == [] then 0
    else
      var u := units[|units| - 1];
      PendingSupply(units[..|units| - 1]) + (if Incomplete(u) then u.supplyProvided else 0)
  }

  /** The rebuilt timeline is sorted. */
  lemma {:induction false} RebuiltSorted(output: seq<ResourceTiming>, units: seq<SupplyUnit>)
    requires StrictlySorted(output)
    ensures StrictlySorted(Rebuilt(output, units))
  {
    if units != [] {
      var init, u := units[..|units| - 1], units[|units| - 1];
      RebuiltSorted(output, init);
      if Incomplete(u) {
        InsertKeepsSorted(Rebuilt(output, init), u.timeTillCompleted, -u.supplyProvided);
      }
    }
  }

  /** The rebuilt timeline's amounts total the outputs less the pending supply. */
  lemma {:induction false} RebuiltSum(output: seq<ResourceTiming>, units: seq<SupplyUnit>)
    ensures Sum(Rebuilt(output, units)) == Sum(output) - PendingSupply(units)
  {
    if units != [] {
      var init, u := units[..|units| - 1], units[|units| - 1];
      RebuiltSum(output, init);
      if Incomplete(u) {
        InsertSum(Rebuilt(output, init), u.timeTillCompleted, -u.supplyProvided);
      }
    }
  }

  /** The rebuilt timeline keeps every output tick and has an entry at every
      incomplete unit's completion tick. */
  lemma {:induction false} RebuiltTimes(output: seq<ResourceTiming>, units: seq<SupplyUnit>)
    ensures forall x :: HasTime(output, x) ==> HasTime(Rebuilt(output, units), x)
    ensures forall i :: 0 <= i < |units| && Incomplete(units[i]) ==>
              HasTime(Rebuilt(output, units), units[i].timeTillCompleted)
  {
    if units != [] {
      var init, u := units[..|units| - 1], units[|units| - 1];
      RebuiltTimes(output, init);
      var prev := Rebuilt(output, init);
      var r := Rebuilt(output, units);
      forall x | HasTime(prev, x)
        ensures HasTime(r, x)
      {
        if Incomplete(u) {
          InsertKeepsTimes(prev, u.timeTillCompleted, -u.supplyProvided, x);
        }
      }
      if Incomplete(u) {
        InsertNeverShrinks(prev, u.timeTillCompleted, -u.supplyProvided);
      }
      forall i | 0 <= i < |units| && Incomplete(units[i])
        ensures HasTime(r, units[i].timeTillCompleted)
      {
        if i < |units| - 1 {
          assert units[i] == init[i];
        }
      }
    }
  }

  /** The supply the leading entries add: `-amount` of every negative amount. */
  function SupplyGain(s: seq<ResourceTiming>): int
  {
    if s == [] then 0
    else
      var a := s[|s| - 1].amount;
      SupplyGain(s[..|s| - 1]) + (if a < 0 then -a else 0)
  }

  /** What `totalSupplyAtTime` returns: the current total plus the supply
      added by the leading entries of the supply timeline with `time <= t`. */
  function TotalSupply(supplyTotal: int, s: seq<ResourceTiming>, t: int): int
  {
    supplyTotal + SupplyGain(s[..FirstAtOrAfter(s, t + 1)])
  }

  lemma {:induction false} SupplyGainGrows(s: seq<ResourceTiming>, i: nat, j: nat)
    requires i <= j <= |s|
    ensures 0 <= SupplyGain(s[..i]) <= SupplyGain(s[..j])
    decreases j
  {
    if i < j {
      assert s[..j][..j - 1] == s[..j - 1];
      SupplyGainGrows(s, i, j - 1);
    } else if j == 0 {
      assert s[..0] == [];
    } else {
      assert s[..j][..j - 1] == s[..j - 1];
      SupplyGainGrows(s, 0, j - 1);
    }
  }

  /** Total supply never falls as the queried tick grows, and never falls
      below the current total. */
  lemma TotalSupplyMonotone(supplyTotal: int, s: seq<ResourceTiming>, t1: int, t2: int)
    requires t1 <= t2
    ensures supplyTotal <= TotalSupply(supplyTotal, s, t1) <= TotalSupply(supplyTotal, s, t2)
  {
    FirstAtOrAfterMonotone(s, t1 + 1, t2 + 1);
    SupplyGainGrows(s, FirstAtOrAfter(s, t1 + 1), FirstAtOrAfter(s, t2 + 1));
  }

  /** Inserting a new tick `t` into a sorted timeline moves the cut before
      tick `u` one place right exactly when `t` falls before `u`. */
  lemma InsertShiftsCut(s: seq<ResourceTiming>, t: int, amount: int, u: int)
    requires StrictlySorted(s) && !HasTime(s, t)
    ensures FirstAtOrAfter(Insert(s, t, amount), u) == FirstAtOrAfter(s, u) + (if t < u then 1 else 0)
  {
    var k := FirstAtOrAfter(s, t);
    var r := Insert(s, t, amount);
    var x := ResourceTiming(t, amount);
    assert r == s[..k] + [x] + s[k..];
    FirstAtOrAfterSplits(s, u);
    var m := FirstAtOrAfter(s, u);
    if t < u {
      assert k <= m;
      forall i | 0 <= i < m + 1 ensures r[i].time < u {
        if i < k { assert r[i] == s[i]; } else if i > k { assert r[i] == s[i - 1]; }
      }
      if m + 1 < |r| {
        assert r[m + 1] == s[m];
      }
      FirstAtOrAfterUnique(r, u, m + 1);
    } else {
      assert m <= k;
      forall i | 0 <= i < m ensures r[i].time < u {
        assert r[i] == s[i];
      }
      if m < |r| {
        assert r[m] == if m < k then s[m] else x;
      }
      FirstAtOrAfterUnique(r, u, m);
    }
  }

  /** Draws (positive amounts) never count toward total supply: on a sorted
      timeline, inserting a draw at a tick that has no entry leaves every
      total unchanged. */
  lemma TotalSupplyIgnoresDraws(supplyTotal: int, s: seq<ResourceTiming>, t: int, amount: int, q: int)
    requires StrictlySorted(s) && !HasTime(s, t) && amount >= 0
    ensures TotalSupply(supplyTotal, Insert(s, t, amount), q) == TotalSupply(supplyTotal, s, q)
  {
    InsertShiftsCut(s, t, amount, q + 1);
    var k, m := FirstAtOrAfter(s, t), FirstAtOrAfter(s, q + 1);
    if t <= q {
      FirstAtOrAfterMonotone(s, t, q + 1);
    } else {
      FirstAtOrAfterMonotone(s, q + 1, t);
    }
    DrawPrefixGain(s, t, amount, m);
  }

  /** The leading `m` entries, with a draw inserted among or after them,
      add the same supply as before. */
  lemma DrawPrefixGain(s: seq<ResourceTiming>, t: int, amount: int, m: nat)
    requires !HasTime(s, t) && amount >= 0 && m <= |s|
    ensures var k, r := FirstAtOrAfter(s, t), Insert(s, t, amount);
      && (k <= m ==> SupplyGain(r[..m + 1]) == SupplyGain(s[..m]))
      && (m <= k ==> SupplyGain(r[..m]) == SupplyGain(s[..m]))
  {
    var k, r := FirstAtOrAfter(s, t), Insert(s, t, amount);
    var x := ResourceTiming(t, amount);
    assert r == s[..k] + [x] + s[k..];
    if k <= m {
      assert r[..m + 1] == s[..k] + [x] + s[k..m];
      assert s[..m] == s[..k] + s[k..m];
      SupplyGainSkipsDraw(s[..k], s[k..m], x);
    }
    if m <= k {
      assert r[..m] == s[..m];
    }
  }

  lemma {:induction false} SupplyGainSkipsDraw(a: seq<ResourceTiming>, b: seq<ResourceTiming>, x: ResourceTiming)
    requires x.amount >= 0
    ensures SupplyGain(a + [x] + b) == SupplyGain(a + b)
    decreases |b|
  {
    if b == [] {
      assert (a + [x] + b)[..|a|] == a;
      assert a + b == a;
    } else {
      var b' := b[..|b| - 1];
      assert (a + [x] + b)[..|a + [x] + b| - 1] == a + [x] + b';
      assert (a + b)[..|a + b| - 1] == a + b';
      SupplyGainSkipsDraw(a, b', x);
    }
  }

  /** A temporary supply output at tick 20 raises the total supply from tick
      20 on, although the permanent output timeline does not see it: the
      total is read from the supply reservation timeline. */
  lemma TemporaryOutputRaisesTotal(supplyTotal: int)
    ensures TotalSupply(supplyTotal, Insert([], 20, -8), 20) == supplyTotal + 8
    ensures TotalSupply(supplyTotal, Insert([], 20, -8), 19) == supplyTotal
  {
    var r := Insert([], 20, -8);
    assert r == [ResourceTiming(20, -8)];
    assert FirstAtOrAfter(r, 21) == 1;
    assert FirstAtOrAfter(r, 20) == 0;
    assert r[..1] == r && r[..1][..0] == [];
  }

  class ResourceManager {
    /** `m_reserved_minerals`, `m_reserved_gas`, `m_reserved_supply`: reservations for tick 0 or earlier. */
    var reservedMinerals: int
    var reservedGas: int
    var reservedSupply: int
    /** The task timelines of the three pools. */
    var taskReservedMinerals: seq<ResourceTiming>
    var taskReservedGas: seq<ResourceTiming>
    var taskReservedSupply: seq<ResourceTiming>
    /** The permanent supply outputs, copied into the supply timeline every cycle. */
    var taskOutputSupply: seq<ResourceTiming>
    var mineralRate: real
    var gasRate: real

    /** Every timeline is strictly sorted; the mineral and gas timelines,
        which only ever take reservations after tick 0, hold only future events. */
    ghost predicate Valid()
      reads this
    {
      && Future(taskReservedMinerals)
      && Future(taskReservedGas)
      && StrictlySorted(taskReservedSupply)
      && StrictlySorted(taskOutputSupply)
    }

    constructor (mineralRate: real, gasRate: real)
      ensures Valid()
      ensures reservedMinerals == 0 && reservedGas == 0 && reservedSupply == 0
      ensures taskReservedMinerals == [] && taskReservedGas == [] && taskReservedSupply == []
      ensures taskOutputSupply == []
      ensures this.mineralRate == mineralRate && this.gasRate == gasRate
    {
      this.mineralRate, this.gasRate := mineralRate, gasRate;
      reservedMinerals, reservedGas, reservedSupply := 0, 0, 0;
      taskReservedMinerals, taskReservedGas, taskReservedSupply := [], [], [];
      taskOutputSupply := [];
    }

    /** The per-cycle refresh: the mineral and gas timelines are emptied and
        the supply timeline is rebuilt from the permanent outputs and the
        incomplete supply units; nothing of the old supply timeline survives. */
    method Update(units: seq<SupplyUnit>)
      requires Valid()
      modifies this`taskReservedMinerals, this`taskReservedGas, this`taskReservedSupply
      ensures Valid()
      ensures taskReservedMinerals == [] && taskReservedGas == []
      ensures taskReservedSupply == Rebuilt(taskOutputSupply, units)
    {
      ghost var output := taskOutputSupply;
      var supply := [] + taskOutputSupply;
      var i := 0;
      while i < |units|
        invariant 0 <= i <= |units|
        invariant StrictlySorted(supply)
        invariant supply == Rebuilt(output, units[..i])
      {
        var unit := units[i];
        RebuiltStep(output, units, i);
        if unit.existing && !unit.completed {
          supply := ReserveTaskResource(supply, unit.timeTillCompleted, -unit.supplyProvided);
        }
        i := i + 1;
      }
      assert units[..i] == units;
      taskReservedMinerals, taskReservedGas, taskReservedSupply := [], [], supply;
    }

    method ReserveTaskMinerals(time: int, amount: int)
      requires Valid()
      modifies this`reservedMinerals, this`taskReservedMinerals
      ensures Valid()
      ensures time <= 0 ==> reservedMinerals == old(reservedMinerals) + amount && taskReservedMinerals == old(taskReservedMinerals)
      ensures time > 0 ==> reservedMinerals == old(reservedMinerals) && taskReservedMinerals == Insert(old(taskReservedMinerals), time, amount)
    {
      if time <= 0 {
        reservedMinerals := reservedMinerals + amount;
      } else {
        InsertKeepsFuture(taskReservedMinerals, time, amount);
        taskReservedMinerals := ReserveTaskResource(taskReservedMinerals, time, amount);
      }
    }

    method ReserveTaskGas(time: int, amount: int)
      requires Valid()
      modifies this`reservedGas, this`taskReservedGas
      ensures Valid()
      ensures time <= 0 ==> reservedGas == old(reservedGas) + amount && taskReservedGas == old(taskReservedGas)
      ensures time > 0 ==> reservedGas == old(reservedGas) && taskReservedGas == Insert(old(taskReservedGas), time, amount)
    {
      if time <= 0 {
        reservedGas := reservedGas + amount;
      } else {
        InsertKeepsFuture(taskReservedGas, time, amount);
        taskReservedGas := ReserveTaskResource(taskReservedGas, time, amount);
      }
    }

    method ReserveTaskSupply(time: int, amount: int)
      requires Valid()
      modifies this`reservedSupply, this`taskReservedSupply
      ensures Valid()
      ensures time <= 0 ==> reservedSupply == old(reservedSupply) + amount && taskReservedSupply == old(taskReservedSupply)
      ensures time > 0 ==> reservedSupply == old(reservedSupply) && taskReservedSupply == Insert(old(taskReservedSupply), time, amount)
    {
      if time <= 0 {
        reservedSupply := reservedSupply + amount;
      } else {
        taskReservedSupply := ReserveTaskResource(taskReservedSupply, time, amount);
      }
    }

    method FreeTaskMinerals(amount: int)
      requires Valid()
      modifies this`reservedMinerals
      ensures Valid()
      ensures reservedMinerals == old(reservedMinerals) - amount
    {
      reservedMinerals := reservedMinerals - amount;
    }

    method FreeTaskGas(amount: int)
      requires Valid()
      modifies this`reservedGas
      ensures Valid()
      ensures reservedGas == old(reservedGas) - amount
    {
      reservedGas := reservedGas - amount;
    }

    method FreeTaskSupply(amount: int)
      requires Valid()
      modifies this`reservedSupply
      ensures Valid()
      ensures reservedSupply == old(reservedSupply) - amount
    {
      reservedSupply := reservedSupply - amount;
    }

    /** `minerals` is the player's current mineral count. With a positive
        mineral rate, a tick found during the scan lies after the event before
        the final covering run and no later than the event that starts it; a
        tick found after the scan lies after the last event. */
    method EarliestMineralAvailability(amount: int, minerals: int) returns (t: int)
      requires Valid()
      ensures t == Earliest(amount, (minerals - reservedMinerals) as real, mineralRate, taskReservedMinerals)
      ensures MidScanBounded(amount, (minerals - reservedMinerals) as real, mineralRate, taskReservedMinerals, t)
    {
      t := EarliestAvailability(amount, (minerals - reservedMinerals) as real, mineralRate, taskReservedMinerals);
      ScanBounds(amount, (minerals - reservedMinerals) as real, mineralRate, taskReservedMinerals);
    }

    /** `gas` is the player's current gas count; the bounds are those of minerals. */
    method EarliestGasAvailability(amount: int, gas: int) returns (t: int)
      requires Valid()
      ensures t == Earliest(amount, (gas - reservedGas) as real, gasRate, taskReservedGas)
      ensures MidScanBounded(amount, (gas - reservedGas) as real, gasRate, taskReservedGas, t)
    {
      t := EarliestAvailability(amount, (gas - reservedGas) as real, gasRate, taskReservedGas);
      ScanBounds(amount, (gas - reservedGas) as real, gasRate, taskReservedGas);
    }

    /** Supply accrues at rate 0, so the answer is 0, the tick of a supply
        event, or "never". */
    method EarliestSupplyAvailability(amount: int, supplyTotal: int, supplyUsed: int) returns (t: int)
      ensures t == Earliest(amount, (supplyTotal - supplyUsed - reservedSupply) as real, 0.0, taskReservedSupply)
      ensures t == 0 || t == MaxTime || exists i :: 0 <= i < |taskReservedSupply| && t == taskReservedSupply[i].time
    {
      t := EarliestAvailability(amount, (supplyTotal - supplyUsed - reservedSupply) as real, 0.0, taskReservedSupply);
      EarliestNonPositiveRate(amount, (supplyTotal - supplyUsed - reservedSupply) as real, 0.0, taskReservedSupply);
    }

    method AvailableMineralsAtTime(time: int, minerals: int) returns (amount: int)
      ensures amount == Projected(time, (minerals - reservedMinerals) as real, mineralRate, taskReservedMinerals)
    {
      amount := AvailabilityAtTime(time, (minerals - reservedMinerals) as real, mineralRate, taskReservedMinerals);
    }

    method AvailableGasAtTime(time: int, gas: int) returns (amount: int)
      ensures amount == Projected(time, (gas - reservedGas) as real, gasRate, taskReservedGas)
    {
      amount := AvailabilityAtTime(time, (gas - reservedGas) as real, gasRate, taskReservedGas);
    }

    method AvailableSupplyAtTime(time: int, supplyTotal: int, supplyUsed: int) returns (amount: int)
      ensures amount == Projected(time, (supplyTotal - supplyUsed - reservedSupply) as real, 0.0, taskReservedSupply)
    {
      amount := AvailabilityAtTime(time, (supplyTotal - supplyUsed - reservedSupply) as real, 0.0, taskReservedSupply);
    }

    /** `supplyTotal` is the player's current total supply. */
    method TotalSupplyAtTime(time: int, supplyTotal: int) returns (supply: int)
      ensures supply == TotalSupply(supplyTotal, taskReservedSupply, time)
    {
      supply := supplyTotal;
      var i := 0;
      while i < |taskReservedSupply|
        invariant 0 <= i <= |taskReservedSupply|
        invariant forall j :: 0 <= j < i ==> taskReservedSupply[j].time <= time
        invariant supply == supplyTotal + SupplyGain(taskReservedSupply[..i])
      {
        var tp := taskReservedSupply[i];
        if tp.time > time {
          break;
        }
        assert taskReservedSupply[..i + 1][..i] == taskReservedSupply[..i];
        if tp.amount < 0 {
          supply := supply - tp.amount;
        }
        i := i + 1;
      }
      FirstAtOrAfterUnique(taskReservedSupply, time + 1, i);
    }

    /** A supply output at `time`: always visible to the supply timeline, and
        recorded as permanent unless `temporary`. */
    method AddTaskSupplyOutput(time: int, amount: int, temporary: bool)
      requires Valid()
      modifies this`taskReservedSupply, this`taskOutputSupply
      ensures Valid()
      ensures taskReservedSupply == Insert(old(taskReservedSupply), time, -amount)
      ensures taskOutputSupply == if temporary then old(taskOutputSupply) else Insert(old(taskOutputSupply), time, -amount)
    {
      taskReservedSupply := ReserveTaskResource(taskReservedSupply, time, -amount);
      if !temporary {
        taskOutputSupply := ReserveTaskResource(taskOutputSupply, time, -amount);
      }
    }

    /** Only an output that was added may be removed. */
    method RemoveTaskSupplyOutput(time: int, amount: int)
      requires Valid() && HasTime(taskOutputSupply, time)
      modifies this`taskOutputSupply
      ensures Valid()
      ensures taskOutputSupply == OutputRemoved(old(taskOutputSupply), time, amount)
    {
      var i := FindTime(taskOutputSupply, time);
      var a := taskOutputSupply[i].amount + amount;
      taskOutputSupply := taskOutputSupply[i := ResourceTiming(taskOutputSupply[i].time, a)];
      if a == 0 {
        taskOutputSupply := taskOutputSupply[..i] + taskOutputSupply[i + 1..];
      }
      OutputRemovedKeepsSorted(old(taskOutputSupply), time, amount);
    }
  }

  /** An immediate mineral reservation followed by freeing the same amount
      leaves the counter and the timeline as they were. */
  method ImmediateReservationRoundTrip(rm: ResourceManager, time: int, amount: int)
    requires rm.Valid() && time <= 0
    modifies rm
    ensures rm.Valid()
    ensures rm.reservedMinerals == old(rm.reservedMinerals)
    ensures rm.taskReservedMinerals == old(rm.taskReservedMinerals)
  {
    rm.ReserveTaskMinerals(time, amount);
    rm.FreeTaskMinerals(amount);
  }

  /** The same round trip on the gas counter. */
  method ImmediateGasRoundTrip(rm: ResourceManager, time: int, amount: int)
    requires rm.Valid() && time <= 0
    modifies rm
    ensures rm.Valid()
    ensures rm.reservedGas == old(rm.reservedGas)
    ensures rm.taskReservedGas == old(rm.taskReservedGas)
  {
    rm.ReserveTaskGas(time, amount);
    rm.FreeTaskGas(amount);
  }

  /** The same round trip on the supply counter. */
  method ImmediateSupplyRoundTrip(rm: ResourceManager, time: int, amount: int)
    requires rm.Valid() && time <= 0
    modifies rm
    ensures rm.Valid()
    ensures rm.reservedSupply == old(rm.reservedSupply)
    ensures rm.taskReservedSupply == old(rm.taskReservedSupply)
  {
    rm.ReserveTaskSupply(time, amount);
    rm.FreeTaskSupply(amount);
  }

  /** Adding a permanent output and removing it again leaves the output
      timeline as it was, when no zero-amount entry sat at that tick. */
  method OutputRoundTrip(rm: ResourceManager, time: int, amount: int)
    requires rm.Valid()
    requires forall i :: 0 <= i < |rm.taskOutputSupply| && rm.taskOutputSupply[i].time == time ==>
               rm.taskOutputSupply[i].amount != 0
    modifies rm
    ensures rm.Valid()
    ensures rm.taskOutputSupply == old(rm.taskOutputSupply)
  {
    RemoveAfterAdd(rm.taskOutputSupply, time, amount);
    rm.AddTaskSupplyOutput(time, amount, false);
    rm.RemoveTaskSupplyOutput(time, amount);
  }
}
