/**
 The per-tick guards: suppress the host's own enter (and, in a locked vehicle,
 exit) control, cancel a default entry when the player starts to move away, and
 stop the window-smash entry. They run in this fixed order every tick and read
 only the snapshot of that tick.
 */
module TickGuard {
  import opened Snapshot

  predicate InLockedVehicle(w: World) {
    w.player.vehicle.Some? && w.player.vehicle.value.lockState == LockLocked
  }

  predicate MovementJustPressed(w: World) {
    || ControlMoveUp in w.input.justPressed
    || ControlMoveDown in w.input.justPressed
    || ControlMoveLeft in w.input.justPressed
    || ControlMoveRight in w.input.justPressed
  }

  /** Disables the enter control, and the exit control inside a locked vehicle. */
  function CancelDefaultEntering(w: World): (r: seq<Command>)
    ensures 1 <= |r| <= 2 && r[0] == DisableControl(ControlEnter)
    ensures forall c :: c in r ==> c.DisableControl?
  {
    [DisableControl(ControlEnter)] +
    if InLockedVehicle(w) then [DisableControl(ControlVehicleExit)] else []
  }

  /** Clears the player's tasks when task 160 (a default entry) is active, task
      163 is not, and a movement control was just pressed. */
  function HandleVehicleCancelEntering(w: World): (r: seq<Command>)
    ensures r == [] || r == [ClearTasks]
  {
    if !w.player.valid then []
    else if CancelSkipTask in w.player.activeTasks then []
    else if EnteringVehicleTask !in w.player.activeTasks then []
    else if !MovementJustPressed(w) then []
    else [ClearTasks]
  }

  /** Forcibly clears the player's tasks when the vehicle being entered is
      unlocked yet the host flags the entry as one into a locked vehicle. */
  function DisableWindowBreaking(w: World): (r: seq<Command>)
    ensures r == [] || r == [ClearTasksImmediately]
  {
    var id := w.player.enteringVehicleId;
    if id == 0 then []
    else
      match VehicleByScriptId(w, id)
      case None => []
      case Some(v) =>
        if !v.valid then []
        else if v.lockState != LockUnlocked then []
        else if !w.player.tryingToEnterLocked then []
        else [ClearTasksImmediately]
  }

  /** One tick: the three guards in order. */
  function Tick(w: World): (r: seq<Command>)
    ensures 1 <= |r| <= 4 && r[0] == DisableControl(ControlEnter)
    ensures |CancelDefaultEntering(w)| <= |r| && r[..|CancelDefaultEntering(w)|] == CancelDefaultEntering(w)
    ensures r[|CancelDefaultEntering(w)|..] == HandleVehicleCancelEntering(w) + DisableWindowBreaking(w)
    ensures forall c :: c in r ==> !c.EnterVehicle?
  {
    CancelDefaultEntering(w) + HandleVehicleCancelEntering(w) + DisableWindowBreaking(w)
  }

  /** Each command of a tick, with the exact conditions under which it is issued:
      the enter control always and first; the exit control only in a locked
      vehicle; the task clear only with all four of its conditions; the forced
      clear only with all four of its conditions, and after the task clear when
      both are issued. A tick never enters a vehicle. */
  lemma TickCommands(w: World)
    ensures Tick(w)[0] == DisableControl(ControlEnter)
    ensures DisableControl(ControlVehicleExit) in Tick(w) <==> InLockedVehicle(w)
    ensures ClearTasks in Tick(w) <==>
      && w.player.valid
      && CancelSkipTask !in w.player.activeTasks
      && EnteringVehicleTask in w.player.activeTasks
      && MovementJustPressed(w)
    ensures ClearTasksImmediately in Tick(w) <==>
      && w.player.enteringVehicleId != 0
      && w.player.enteringVehicleId in w.vehicles
      && w.vehicles[w.player.enteringVehicleId].valid
      && w.vehicles[w.player.enteringVehicleId].lockState == LockUnlocked
      && w.player.tryingToEnterLocked
    ensures ClearTasks in Tick(w) && ClearTasksImmediately in Tick(w) ==>
      |Tick(w)| >= 3 && Tick(w)[|Tick(w)| - 2] == ClearTasks && Tick(w)[|Tick(w)| - 1] == ClearTasksImmediately
    ensures forall c :: c in Tick(w) ==> !c.EnterVehicle?
    ensures |Tick(w)| <= 4
  {
  }
}
