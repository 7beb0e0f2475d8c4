/**
 The host state the vehicle-entry script reads at one instant, and the native
 commands it can issue. The script keeps no state of its own between calls: every
 handler is a function of one such snapshot to the commands it emits, in order.
 */
module Snapshot {

  datatype Option<+T> = None | Some(value: T)

  // Key codes (key-down events and the held-key query).
  const EnterAsDriverKey := 70     // F
  const EnterAsPassengerKey := 71  // G
  const PassengerModeKey := 16     // Shift

  // Host task ids queried by the script.
  const EntryGuardTask := 6        // must be active before an entry is started
  const EnteringVehicleTask := 160
  const CancelSkipTask := 163      // while active, a default entry is not cancelled

  // Host control ids.
  const ControlEnter := 23
  const ControlMoveUp := 32
  const ControlMoveDown := 33
  const ControlMoveLeft := 34
  const ControlMoveRight := 35
  const ControlVehicleExit := 75

  // Vehicle lock states.
  const LockUnlocked := 1
  const LockLocked := 2

  // Arguments of the enter-vehicle task.
  const DriverSeat := -1
  const FrontPassengerSeat := 0
  const EntryTimeoutMs := 5000
  const StandardEntryFlag := 1
  const AlternateEntryFlag := 16

  /** What the host reports about a vehicle's model: the bicycle and bike
      queries, and the two models with their own last animatable seat. */
  datatype ModelClass = Bicycle | Bike | Journey | Journey2 | OtherModel

  datatype Vehicle = Vehicle(
    scriptId: int,
    valid: bool,
    model: ModelClass,
    lockState: int,
    // bone index of a named bone of this vehicle, -1 when the model has none
    boneIndex: string -> int,
    // distance from the player's position to a bone's world position
    boneDistance: int -> real,
    // the seats the host reports free
    freeSeats: set<int>)

  datatype Player = Player(
    valid: bool,
    vehicle: Option<Vehicle>,        // the vehicle the player sits in, if any
    activeTasks: set<int>,
    enteringVehicleId: int,          // script id of the vehicle being entered, 0 if none
    tryingToEnterLocked: bool)

  datatype Input = Input(
    cursorVisible: bool,
    gameControlsEnabled: bool,
    keysDown: set<int>,              // keys currently held
    justPressed: set<int>)           // controls pressed this frame

  /** Result of the camera ray probe: whether it hit, and the entity it hit. */
  datatype RayResult = RayResult(hit: bool, entity: int)

  datatype World = World(
    player: Player,
    input: Input,
    vehicles: map<int, Vehicle>,     // the vehicles the script can look up by script id
    vehicleEntities: set<int>,       // the entities the host says are vehicles
    ray: RayResult,
    closestVehicle: Option<Vehicle>) // the nearest-vehicle query's answer

  /** A native call issued by the script. */
  datatype Command =
    | DisableControl(control: int)
    | EnterVehicle(vehicle: int, seat: int, timeoutMs: int, flag: int)
    | ClearTasks
    | ClearTasksImmediately

  /** The host's lookup by script id returns the vehicle with that script id. */
  predicate WellFormed(w: World) {
    forall id :: id in w.vehicles ==> w.vehicles[id].scriptId == id
  }

  /** Looks a vehicle up by script id; None stands for the host's null. */
  function VehicleByScriptId(w: World, id: int): (r: Option<Vehicle>)
    ensures r.Some? <==> id in w.vehicles
    ensures r.Some? ==> r.value == w.vehicles[id]
  {
    if id in w.vehicles then Some(w.vehicles[id]) else None
  }
}
