/**
 The key-down handler: the driver key starts a driver entry and the passenger
 key a passenger entry, only for a valid player with game controls enabled who
 is not in a vehicle.
 */
module KeyDown {
  import opened Snapshot
  import opened Entry

  function OnKeyDown(w: World, key: int): (r: seq<Command>)
    ensures |r| <= 1
    ensures forall c :: c in r ==> c.EnterVehicle? && c.timeoutMs == EntryTimeoutMs
  {
    if !w.player.valid || !w.input.gameControlsEnabled then []
    else if w.player.vehicle.None? then
      if key == EnterAsDriverKey then DriverCommands(w)
      else if key == EnterAsPassengerKey then PassengerCommands(w)
      else []
    else []
  }

  /** The dispatcher: the driver key runs the driver path, the passenger key the
      passenger path, each only for a valid player with controls enabled and not
      in a vehicle; every other key, and every other state, does nothing. */
  lemma KeyDownDispatch(w: World, key: int)
    ensures var ready := w.player.valid && w.input.gameControlsEnabled && w.player.vehicle.None?;
      OnKeyDown(w, key) ==
        if ready && key == EnterAsDriverKey then DriverCommands(w)
        else if ready && key == EnterAsPassengerKey then PassengerCommands(w)
        else []
  {
  }

  /** A key press issues a command only when the entry guard holds as well: the
      cursor is hidden and task 6 is active. */
  lemma KeyDownNeedsEntryGuard(w: World, key: int)
    requires OnKeyDown(w, key) != []
    ensures w.player.valid && w.input.gameControlsEnabled && EntryAllowed(w)
    ensures key == EnterAsDriverKey || key == EnterAsPassengerKey
  {
  }
}
