// A task bundles resource requirements and at most one unit requirement,
// resolves the single earliest tick at which all of them can be met, and
// commits every resource requirement at that tick.
//
// The requirement objects themselves are not part of this model: what they
// answer is passed in (the earliest tick of each resource requirement, the
// unit requirement's answer for a given floor, the unit it then chose), and
// the calls the task makes on them and on its task manager are recorded in
// a ghost log of `Call`s, over which the properties are stated.

module Tasks {
  import opened Timeline

  type UnitId = int
  type UnitTypeId = int

  datatype Option<T> = None | Some(value: T)

  datatype Position = Position(x: int, y: int)

  /** The start and end positions a unit requirement may be given. */
  datatype Route = Route(start: Position, end: Position)

  datatype ResourceRequirement =
    | MineralRequirement(amount: int)
    | GasRequirement(amount: int)
    | SupplyRequirement(amount: int)

  /** Either any unit of a type, or one particular unit. */
  datatype UnitChoice = UnitOfType(unitType: UnitTypeId) | SpecificUnit(unit: UnitId)

  datatype UnitRequirement = UnitRequirement(choice: UnitChoice, duration: Option<int>, route: Option<Route>)

  /** A call the task makes on its requirements or on its task manager.
      Resource requirements are named by their position in the task. */
  datatype Call =
    | ReserveUnit(floor: int)              // the unit requirement resolved against a floor
    | ReserveResource(index: nat, tick: int)
    | FreeResource(index: nat)
    | FreeUnit
    | TaskDestroyed                        // the task manager told of the task's end

  function Max(a: int, b: int): int
  {
    if a < b then b else a
  }

  /** The largest of the resource requirements' earliest ticks, and 0 when
      there is none or all are negative: a bound, not below 0, that covers
      every tick (`ResourceFloorAttained` shows it is the least one). */
  function ResourceFloor(times: seq<int>): (r: int)
    ensures r >= 0
    ensures forall i :: 0 <= i < |times| ==> times[i] <= r
  {
    if times == [] then 0
    else Max(ResourceFloor(times[..|times| - 1]), times[|times| - 1])
  }

  lemma ResourceFloorStep(times: seq<int>, i: nat)
    requires i < |times|
    ensures ResourceFloor(times[..i + 1]) == Max(ResourceFloor(times[..i]), times[i])
  {
    assert times[..i + 1][..i] == times[..i];
  }

  /** The floor is 0 or one of the ticks, so no smaller bound covers them. */
  lemma {:induction false} ResourceFloorAttained(times: seq<int>)
    ensures ResourceFloor(times) == 0 || exists i :: 0 <= i < |times| && times[i] == ResourceFloor(times)
  {
    if times != [] {
      var prefix := times[..|times| - 1];
      ResourceFloorAttained(prefix);
      if ResourceFloor(times) != times[|times| - 1] && ResourceFloor(times) != 0 {
        var i :| 0 <= i < |prefix| && prefix[i] == ResourceFloor(prefix);
        assert times[i] == ResourceFloor(times);
      }
    }
  }

  /** Whether the unit requirement is consulted: there is one and the
      resources are not already out of reach. */
  predicate ConsultsUnit(times: seq<int>, hasUnit: bool)
  {
    hasUnit && ResourceFloor(times) < MaxTime
  }

  /** The tick the task settles on. */
  function ResolvedTime(times: seq<int>, hasUnit: bool, unitTime: int -> int): int
  {
    if ConsultsUnit(times, hasUnit) then unitTime(ResourceFloor(times)) else ResourceFloor(times)
  }

  /** One reservation per resource requirement, in order, all at `tick`. */
  function ReservationCalls(n: nat, tick: int): (r: seq<Call>)
    ensures |r| == n
    ensures forall i :: 0 <= i < n ==> r[i] == ReserveResource(i, tick)
  {
    if n == 0 then [] else ReservationCalls(n - 1, tick) + [ReserveResource(n - 1, tick)]
  }

  /** One release per resource requirement, in order. */
  function FreeCalls(n: nat): (r: seq<Call>)
    ensures |r| == n
    ensures forall i :: 0 <= i < n ==> r[i] == FreeResource(i)
  {
    if n == 0 then [] else FreeCalls(n - 1) + [FreeResource(n - 1)]
  }

  /** The calls `UpdateTime` makes: the unit requirement first when it is
      consulted, then the reservations when the final tick is reachable. */
  function UpdateCalls(n: nat, times: seq<int>, hasUnit: bool, unitTime: int -> int): seq<Call>
  {
    (if ConsultsUnit(times, hasUnit) then [ReserveUnit(ResourceFloor(times))] else [])
    + (if ResolvedTime(times, hasUnit, unitTime) < MaxTime
       then ReservationCalls(n, ResolvedTime(times, hasUnit, unitTime)) else [])
  }

  /** The first loop of `UpdateTime`: the latest tick any resource
      requirement reports, starting from 0. */
  method LatestResourceTime(times: seq<int>) returns (latest: int)
    ensures latest == ResourceFloor(times)
  {
    latest := 0;
    var i := 0;
    while i < |times|
      invariant 0 <= i <= |times|
      invariant latest == ResourceFloor(times[..i])
    {
      ResourceFloorStep(times, i);
      latest := Max(latest, times[i]);
      i := i + 1;
    }
    assert times[..i] == times;
  }

  class Task {
    var requirements: seq<ResourceRequirement>
    var unitRequirement: Option<UnitRequirement>
    var earliestTime: int
    var assignedUnit: Option<UnitId>
    ghost var log: seq<Call>

    constructor ()
      ensures requirements == [] && unitRequirement == None
      ensures earliestTime == 0 && assignedUnit == None
      ensures log == []
    {
      requirements, unitRequirement := [], None;
      earliestTime, assignedUnit := 0, None;
      log := [];
    }

    /** Resolves the task. `times[i]` is what requirement `i` reports as its
        earliest tick, `unitTime(floor)` what the unit requirement reports
        when resolved against `floor`, and `chosenUnit` the unit it then
        names. */
    method UpdateTime(times: seq<int>, unitTime: int -> int, chosenUnit: Option<UnitId>)
      requires |times| == |requirements|
      modifies this`earliestTime, this`assignedUnit, this`log
      ensures earliestTime == ResolvedTime(times, unitRequirement.Some?, unitTime)
      ensures assignedUnit == if ConsultsUnit(times, unitRequirement.Some?) then chosenUnit else old(assignedUnit)
      ensures log == old(log) + UpdateCalls(|requirements|, times, unitRequirement.Some?, unitTime)
    {
      earliestTime := LatestResourceTime(times);
      ghost var floor := earliestTime;
      if unitRequirement.Some? && earliestTime < MaxTime {
        log := log + [ReserveUnit(earliestTime)];
        earliestTime := unitTime(earliestTime);
        assignedUnit := chosenUnit;
      }
      assert log == old(log) + if ConsultsUnit(times, unitRequirement.Some?) then [ReserveUnit(floor)] else [];
      if earliestTime < MaxTime {
        ReserveAll(earliestTime);
      }
    }

    /** The commit step of `UpdateTime`: every resource requirement, in
        order, reserved at `tick`. */
    method ReserveAll(tick: int)
      modifies this`log
      ensures log == old(log) + ReservationCalls(|requirements|, tick)
    {
      var j := 0;
      while j < |requirements|
        invariant 0 <= j <= |requirements|
        invariant log == old(log) + ReservationCalls(j, tick)
      {
        log := log + [ReserveResource(j, tick)];
        j := j + 1;
      }
    }

    /** The task's end: every resource requirement is released, then the
        unit requirement if there is one, and the task manager is told
        whenever the task's tick is above 0, `MaxTime` included. */
    method Destroy()
      modifies this`log
      ensures log == old(log) + FreeCalls(|requirements|)
                    + (if unitRequirement.Some? then [FreeUnit] else [])
                    + (if earliestTime > 0 then [TaskDestroyed] else [])
    {
      var i := 0;
      while i < |requirements|
        invariant 0 <= i <= |requirements|
        invariant log == old(log) + FreeCalls(i)
      {
        log := log + [FreeResource(i)];
        i := i + 1;
      }
      if unitRequirement.Some? {
        log := log + [FreeUnit];
      }
      if earliestTime > 0 {
        log := log + [TaskDestroyed];
      }
    }

    method AddRequirementMineral(amount: int)
      modifies this`requirements
      ensures requirements == old(requirements) + [MineralRequirement(amount)]
    {
      requirements := requirements + [MineralRequirement(amount)];
    }

    method AddRequirementGas(amount: int)
      modifies this`requirements
      ensures requirements == old(requirements) + [GasRequirement(amount)]
    {
      requirements := requirements + [GasRequirement(amount)];
    }

    method AddRequirementSupply(amount: int)
      modifies this`requirements
      ensures requirements == old(requirements) + [SupplyRequirement(amount)]
    {
      requirements := requirements + [SupplyRequirement(amount)];
    }

    /** Any unit of `unitType`, optionally for a duration and along a route;
        whatever unit requirement the task had is replaced. */
    method AddRequirementUnitType(unitType: UnitTypeId, duration: Option<int>, route: Option<Route>)
      modifies this`unitRequirement
      ensures unitRequirement == Some(UnitRequirement(UnitOfType(unitType), duration, route))
    {
      unitRequirement := Some(UnitRequirement(UnitOfType(unitType), duration, route));
    }

    /** The one unit `unit`, optionally for a duration and along a route;
        whatever unit requirement the task had is replaced. */
    method AddRequirementUnitSpecific(unit: UnitId, duration: Option<int>, route: Option<Route>)
      modifies this`unitRequirement
      ensures unitRequirement == Some(UnitRequirement(SpecificUnit(unit), duration, route))
    {
      unitRequirement := Some(UnitRequirement(SpecificUnit(unit), duration, route));
    }
  }

  /** Without a unit requirement the task settles on the resource floor, and
      makes exactly one reservation per requirement when that is reachable. */
  lemma WithoutUnitSettlesOnFloor(times: seq<int>, unitTime: int -> int)
    ensures ResolvedTime(times, false, unitTime) == ResourceFloor(times)
    ensures ResourceFloor(times) < MaxTime ==> UpdateCalls(|times|, times, false, unitTime) == ReservationCalls(|times|, ResourceFloor(times))
    ensures ResourceFloor(times) >= MaxTime ==> UpdateCalls(|times|, times, false, unitTime) == []
  {
  }

  /** A task without requirements settles on tick 0. */
  lemma NoRequirementsSettlesOnZero(unitTime: int -> int)
    ensures ResolvedTime([], false, unitTime) == 0
  {
  }

  /** When the unit requirement never answers below its floor, the settled
      tick covers every resource requirement's earliest tick, and it is the
      tick every reservation is made at. */
  lemma {:induction false} ResolvedTimeCoversAll(times: seq<int>, hasUnit: bool, unitTime: int -> int)
    requires forall floor :: floor <= unitTime(floor)
    ensures forall i :: 0 <= i < |times| ==> times[i] <= ResolvedTime(times, hasUnit, unitTime)
    ensures 0 <= ResolvedTime(times, hasUnit, unitTime)
  {
    var floor := ResourceFloor(times);
    assert floor <= unitTime(floor);
  }

  /** The unit requirement sees the resource floor, not the settled tick, and
      the reservations are made at the settled tick, not at the floor. */
  lemma UnitMovesReservations(times: seq<int>, unitTime: int -> int)
    requires ResourceFloor(times) < MaxTime
    requires unitTime(ResourceFloor(times)) < MaxTime
    ensures UpdateCalls(|times|, times, true, unitTime)
         == [ReserveUnit(ResourceFloor(times))] + ReservationCalls(|times|, unitTime(ResourceFloor(times)))
  {
  }

  /** A task with one mineral requirement ready at tick 12 and a unit
      requirement that, given floor 12, answers 15: the task settles on 15
      and reserves the minerals at 15, not at 12. */
  method ResolutionExample() returns (earliest: int, chosen: Option<UnitId>, ghost calls: seq<Call>)
    ensures earliest == 15 && chosen == Some(7)
    ensures calls == [ReserveUnit(12), ReserveResource(0, 15)]
  {
    var task := new Task();
    task.AddRequirementMineral(50);
    task.AddRequirementUnitType(3, None, None);
    task.UpdateTime([12], floor => if floor <= 12 then 15 else floor + 3, Some(7));
    assert [12][..0] == [];
    assert ResourceFloor([12]) == 12;
    earliest, chosen, calls := task.earliestTime, task.assignedUnit, task.log;
  }

  /** A requirement that can never be met keeps the unit requirement from
      being consulted and stops every reservation. */
  method UnreachableExample() returns (earliest: int, chosen: Option<UnitId>, ghost calls: seq<Call>)
    ensures earliest == MaxTime && chosen == None
    ensures calls == []
  {
    var task := new Task();
    task.AddRequirementMineral(50);
    task.AddRequirementGas(25);
    task.AddRequirementUnitSpecific(9, Some(100), None);
    task.UpdateTime([40, MaxTime], floor => floor + 1, Some(9));
    assert [40, MaxTime][..1] == [40] && [40][..0] == [];
    assert ResourceFloor([40, MaxTime]) == MaxTime;
    earliest, chosen, calls := task.earliestTime, task.assignedUnit, task.log;
  }
}
