/**
 Entering a vehicle on a key press: as driver, or as passenger at the seat the
 selector picks. Both paths first check the same guard and then resolve the
 target vehicle; every failed check is a silent no-op (no command).
 */
module Entry {
  import opened Snapshot
  import opened Targeting
  import opened Seats

  /** The shared guard: no cursor, not in a vehicle, and task 6 active. */
  predicate EntryAllowed(w: World)
    ensures !EntryAllowed(w) <==>
      w.input.cursorVisible || w.player.vehicle.Some? || EntryGuardTask !in w.player.activeTasks
  {
    !w.input.cursorVisible && w.player.vehicle.None? && EntryGuardTask in w.player.activeTasks
  }

  /** The target vehicle when it exists and is valid. */
  predicate HasValidTarget(w: World) {
    LookingOrClosestVehicle(w).Some? && LookingOrClosestVehicle(w).value.valid
  }

  /** Seats below this number use the standard entry animation. */
  function LastAnimatableSeat(model: ModelClass): (n: int)
    ensures n == 0 || n == 6
    ensures n == 0 <==> model == Journey || model == Journey2
  {
    match model
    case Journey => 0
    case Journey2 => 0
    case _ => 6
  }

  function AnimationFlag(model: ModelClass, seat: int): (flag: int)
    ensures flag == StandardEntryFlag || flag == AlternateEntryFlag
    ensures flag == StandardEntryFlag <==> seat < LastAnimatableSeat(model)
  {
    if seat < LastAnimatableSeat(model) then StandardEntryFlag else AlternateEntryFlag
  }

  /** Enter the target as driver, if its driver seat is free. */
  function DriverCommands(w: World): (r: seq<Command>)
    ensures |r| <= 1
    ensures forall c :: c in r ==>
      c.EnterVehicle? && c.seat == DriverSeat && c.timeoutMs == EntryTimeoutMs && c.flag == StandardEntryFlag
  {
    if !EntryAllowed(w) then []
    else
      match LookingOrClosestVehicle(w)
      case None => []
      case Some(v) =>
        if !v.valid then []
        else if DriverSeat !in v.freeSeats then []
        else [EnterVehicle(v.scriptId, DriverSeat, EntryTimeoutMs, StandardEntryFlag)]
  }

  /** Enter the target as passenger: nothing for a bicycle, the front seat of a
      bike, otherwise the seat the selector picks. */
  function PassengerCommands(w: World): (r: seq<Command>)
    ensures |r| <= 1
  {
    if !EntryAllowed(w) then []
    else
      match LookingOrClosestVehicle(w)
      case None => []
      case Some(v) =>
        if !v.valid then []
        else if v.model == Bicycle then []
        else if v.model == Bike then
          if FrontPassengerSeat in v.freeSeats
          then [EnterVehicle(v.scriptId, FrontPassengerSeat, EntryTimeoutMs, StandardEntryFlag)]
          else []
        else
          var seat := ClosestFreeSeat(SeatDistances(v), v.freeSeats, PassengerModeKey in w.input.keysDown);
          if seat == NoSeat then []
          else [EnterVehicle(v.scriptId, seat, EntryTimeoutMs, AnimationFlag(v.model, seat))]
  }

  /** The passenger entry handler. */
  method EnterAsPassenger(w: World) returns (r: seq<Command>)
    ensures r == PassengerCommands(w)
  {
    if !EntryAllowed(w) {
      return [];
    }
    var target := LookingOrClosestVehicle(w);
    if target.None? || !target.value.valid {
      return [];
    }
    var v := target.value;
    if v.model == Bicycle {
      return [];
    }
    if v.model == Bike {
      if FrontPassengerSeat in v.freeSeats {
        return [EnterVehicle(v.scriptId, FrontPassengerSeat, EntryTimeoutMs, StandardEntryFlag)];
      }
      return [];
    }
    var seatDistances := CollectSeatDistances(v);
    var seat := ClosestFreeSeatIndex(seatDistances, v.freeSeats, PassengerModeKey in w.input.keysDown);
    if seat == NoSeat {
      return [];
    }
    r := [EnterVehicle(v.scriptId, seat, EntryTimeoutMs, AnimationFlag(v.model, seat))];
  }

  /** Neither path issues anything when the guard fails, whatever the target. */
  lemma GuardBlocksBothPaths(w: World)
    requires !EntryAllowed(w)
    ensures DriverCommands(w) == [] && PassengerCommands(w) == []
  {
  }

  /** The driver path issues its one command exactly when the guard holds and the
      target is valid with the driver seat free, and it enters that target. */
  lemma DriverEntersExactlyWhen(w: World)
    ensures DriverCommands(w) != [] <==>
      EntryAllowed(w) && HasValidTarget(w) && DriverSeat in LookingOrClosestVehicle(w).value.freeSeats
    ensures DriverCommands(w) != [] ==>
      DriverCommands(w) == [EnterVehicle(LookingOrClosestVehicle(w).value.scriptId, DriverSeat, EntryTimeoutMs, StandardEntryFlag)]
  {
  }

  /** Any passenger command enters the resolved target at a free seat, a grab seat
      only with the passenger-mode key held, with the fixed timeout and the flag
      given by the model's last animatable seat. */
  lemma PassengerCommandIsAllowed(w: World)
    requires PassengerCommands(w) != []
    ensures EntryAllowed(w) && HasValidTarget(w)
    ensures var v := LookingOrClosestVehicle(w).value;
      var c := PassengerCommands(w)[0];
      && v.model != Bicycle
      && c.EnterVehicle?
      && c.vehicle == v.scriptId
      && c.seat in v.freeSeats
      && c.seat >= 0
      && (c.seat in GrabSeats ==> PassengerModeKey in w.input.keysDown)
      && c.timeoutMs == EntryTimeoutMs
      && (c.flag == StandardEntryFlag <==> c.seat < LastAnimatableSeat(v.model))
      && (c.flag == StandardEntryFlag || c.flag == AlternateEntryFlag)
  {
  }

  /** In a world the host can produce, a driver entry after a ray hit on a known
      vehicle enters exactly the entity the ray hit. */
  lemma DriverEntersHitVehicle(w: World)
    requires WellFormed(w) && RayHitsVehicle(w) && w.ray.entity in w.vehicles
    requires DriverCommands(w) != []
    ensures DriverCommands(w)[0].vehicle == w.ray.entity
  {
  }

  /** A bicycle is never entered as passenger. */
  lemma BicycleNeverEntered(w: World)
    requires HasValidTarget(w) && LookingOrClosestVehicle(w).value.model == Bicycle
    ensures PassengerCommands(w) == []
  {
  }

  /** A bike is entered at seat 0 with the standard flag exactly when that seat
      is free, and otherwise not at all. */
  lemma BikeTakesFrontSeatOnly(w: World)
    requires EntryAllowed(w) && HasValidTarget(w) && LookingOrClosestVehicle(w).value.model == Bike
    ensures var v := LookingOrClosestVehicle(w).value;
      PassengerCommands(w) ==
        if FrontPassengerSeat in v.freeSeats
        then [EnterVehicle(v.scriptId, FrontPassengerSeat, EntryTimeoutMs, StandardEntryFlag)]
        else []
  {
  }

  /** In the general case the seat is a position in the list of existing seat
      bones (its distance is that of the bone at the matching table position)
      and is the nearest qualifying seat (the last of equals); nothing is
      issued exactly when no seat qualifies. */
  lemma PassengerPicksNearestSeat(w: World)
    requires EntryAllowed(w) && HasValidTarget(w)
    requires LookingOrClosestVehicle(w).value.model !in {Bicycle, Bike}
    ensures var v := LookingOrClosestVehicle(w).value;
      var ds := SeatDistances(v);
      var held := PassengerModeKey in w.input.keysDown;
      && |ds| == |ExistingBones(SeatBones(v))|
      && (PassengerCommands(w) == [] <==> forall j :: 0 <= j < |ds| ==> !Candidate(ds, j, v.freeSeats, held))
      && (PassengerCommands(w) != [] ==>
            var s := PassengerCommands(w)[0].seat;
            && 0 <= s < |ExistingBones(SeatBones(v))|
            && ExistingPositions(SeatBones(v))[s] < |SeatBoneNames|
            && ds[s] == v.boneDistance(v.boneIndex(SeatBoneNames[ExistingPositions(SeatBones(v))[s]]))
            && (forall j :: 0 <= j < |ds| && Eligible(j, v.freeSeats, held) ==> ds[s] <= ds[j])
            && (forall j :: s < j < |ds| && Eligible(j, v.freeSeats, held) ==> ds[s] < ds[j]))
  {
    var v := LookingOrClosestVehicle(w).value;
    ClosestFreeSeatSpec(SeatDistances(v), v.freeSeats, PassengerModeKey in w.input.keysDown);
    ExistingBonesKeepOrder(SeatBones(v));
  }

  /** The journey models always get the alternate flag. */
  lemma JourneyAlwaysAlternateFlag(w: World)
    requires PassengerCommands(w) != []
    requires LookingOrClosestVehicle(w).value.model in {Journey, Journey2}
    ensures PassengerCommands(w)[0].flag == AlternateEntryFlag
  {
  }
}
