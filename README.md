# Vehicle entry handler — a Dafny model

This project models the decision logic of a client script for a multiplayer game mod. The script replaces the game's own way of getting into a vehicle. It does three things:

- On the driver key (F) it enters the targeted vehicle as driver.
- On the passenger key (G) it enters the targeted vehicle at the best passenger seat.
- Every tick it suppresses the game's built-in enter control, and it cancels default entries in two situations.

The script keeps no state of its own. Everything it reads comes from the host: the player, the vehicles, the input, the camera ray probe and the nearest-vehicle query. The model captures one instant of that host state as a `World` value. Each handler is a function from a `World` to the list of native commands it issues, in order. An empty list is a silent no-op.

Modules:

- `Snapshot` (`snapshot.dfy`): the snapshot types, the constants and the `Command` values. The constants are key codes, task ids, control ids, lock states and the enter-task arguments. A command is a disabled control, an enter-vehicle task (vehicle, seat, timeout, flag), a task clear or a forced task clear.
- `Targeting` (`targeting.dfy`): resolves the target vehicle from the ray hit, falling back to the nearest vehicle.
- `Seats` (`seats.dfy`): the passenger seat selector. It is imperative, as the source is. `CollectSeatDistances` is the loop that builds the seat-position list from the existing seat bones. `ClosestFreeSeatIndex` is the nearest-free-seat loop. Both are proved against specification functions (`ExistingBones`, `Scan`, `ClosestFreeSeat`), and the properties of those functions are proved as lemmas.
- `Entry` (`entry.dfy`): the shared entry guard, the driver path, the passenger path (a method, with a specification function beside it) and the animation-flag choice.
- `TickGuard` (`tick.dfy`): the three per-tick guards and their fixed order within a tick.
- `KeyDown` (`keydown.dfy`): the key-down dispatcher.

Notes on how the model reads the code:

- **Ties between equal seat distances go to the later seat.** The loop skips a seat only when its distance is strictly greater than the best so far (client/main.js:161), so an equal distance replaces the earlier seat. `ClosestFreeSeatUnique` proves that "nearest, last of equals" determines the seat completely.
- **The entry guard requires task 6 to be active.** Both entry paths return when task 6 is *not* active (client/main.js:74, 98), so an entry starts only while task 6 runs.
- **The starting distance is modelled exactly.** The search starts at `Number.MAX_SAFE_INTEGER` (client/main.js:152). A seat farther away than that is never chosen, so "no seat qualifies" means no free, allowed seat within that distance.
- **Seat numbers are positions in a compacted list.** A seat number is a position in the list of seat bones that exist, not a position in the fixed bone-name table. Compaction keeps the table order (`ExistingBonesKeepOrder`). The same number is passed to the seat-free query and to the enter task.

## Model

| member | source | states |
|---|---|---|
| `Snapshot.VehicleByScriptId` | client/main.js:230-231 | A script-id lookup yields a vehicle exactly when the id is known, and then that vehicle; otherwise none (the host's null). |
| `Targeting.LookingOrClosestVehicle` | client/main.js:55-68 | When the ray hits a vehicle entity, the result is the script-id lookup of that entity. Otherwise it is the nearest vehicle. |
| `Targeting.RayHitHasNoFallback` | client/main.js:59-61 | When the ray hits a vehicle entity, the nearest-vehicle answer has no effect on the result. A known hit entity resolves to its vehicle, and an unknown one to none. |
| `Targeting.NoHitUsesNearest` | client/main.js:64-67 | Without a ray hit on a vehicle, the result is exactly the nearest-vehicle answer, so none when no vehicle is in range. |
| `Seats.SeatBones` | client/main.js:121-139 | One bone index per name of the fixed 17-name seat-bone table, in table order. |
| `Seats.ExistingBones` | client/main.js:141-148 | The compacted bone list is never longer than the table. It holds exactly the bones whose index is not -1. |
| `Seats.ExistingPositions` | client/main.js:143-144 | One table position per existing bone, each within the table. |
| `Seats.ExistingBonesKeepOrder` | client/main.js:141-148 | Compaction keeps table order. Seat k is the bone at the k-th table position holding a bone. The positions strictly increase, and every position holding a bone is among them. |
| `Seats.DistancesOf` | client/main.js:146 | One distance per existing bone, in the same order: entry k is the distance of the k-th existing bone. |
| `Seats.SeatDistances` | client/main.js:141-148 | A vehicle's seat list has one distance per existing seat bone, at most 17 entries, in table order. |
| `Seats.CollectSeatDistances` | client/main.js:141-148 | The loop builds one entry per existing seat bone, in order, and never more than 17 entries. |
| `Seats.Scan` | client/main.js:151-165 | The loop state after n seats: the seat is none or one of the first n, and the distance never exceeds the starting bound. |
| `Seats.ClosestFreeSeat` | client/main.js:150-167 | The selector's answer is none or a seat index in range. A seat it returns is free, allowed and within the starting bound. |
| `Seats.ScanInvariant` | client/main.js:151-165 | After n seats, the loop's state has four properties. The seat is eligible or none. The distance is the seat's own distance and at most the starting bound. No eligible seat so far is nearer. Every later eligible seat is strictly farther. |
| `Seats.ClosestFreeSeatSpec` | client/main.js:150-167 | The chosen seat is free. It is a grab seat (3–6) only if the modifier is held. It is at minimal distance among eligible seats, and it is the highest index among equals. The result is none exactly when no seat qualifies. |
| `Seats.ClosestFreeSeatUnique` | client/main.js:156-165 | Any seat with those properties is the one the selector returns, so the tie-break is fully determined. |
| `Seats.ClosestFreeSeatIndex` | client/main.js:150-165 | The imperative loop returns the specified seat and meets all of the selector properties. |
| `Entry.EntryAllowed` | client/main.js:71-75 | The shared guard fails exactly when the cursor is visible, or the player is in a vehicle, or task 6 is not active. |
| `Entry.LastAnimatableSeat` | client/main.js:169-174 | The threshold is 0 for the journey and journey2 models and 6 for every other model. |
| `Entry.AnimationFlag` | client/main.js:176-196 | The flag is 1 when the seat is below the threshold and 16 otherwise. |
| `Entry.DriverCommands` | client/main.js:70-92 | The driver path issues at most one command. That command enters seat -1 with timeout 5000 and flag 1. |
| `Entry.PassengerCommands` | client/main.js:94-197 | The passenger path issues at most one command. |
| `Entry.EnterAsPassenger` | client/main.js:94-197 | The imperative passenger handler, built on the two selector loops, issues exactly the commands of the passenger specification. |
| `Entry.GuardBlocksBothPaths` | client/main.js:70-100 | If the cursor is visible, or the player is in a vehicle, or task 6 is not active, neither entry path issues anything, whatever the target. |
| `Entry.DriverEntersExactlyWhen` | client/main.js:78-91 | The driver path issues a command if and only if three things hold: the guard passes, the target resolves to a valid vehicle, and that vehicle's seat -1 is free. The command is then `Enter(target, -1, 5000, 1)`. |
| `Entry.PassengerCommandIsAllowed` | client/main.js:102-196 | A passenger command targets the resolved valid vehicle, and it is never a bicycle. The seat is free and non-negative. The seat is a grab seat only with Shift held. The timeout is 5000 and the flag is 1 or 16 by the threshold rule. |
| `Entry.DriverEntersHitVehicle` | client/main.js:57-60 | When each script id maps to the vehicle with that id, a driver entry after a ray hit on a known vehicle enters exactly the entity the ray hit. |
| `Entry.BicycleNeverEntered` | client/main.js:105 | A bicycle target never yields a passenger command. |
| `Entry.BikeTakesFrontSeatOnly` | client/main.js:107-119 | A bike target yields `Enter(bike, 0, 5000, 1)` when seat 0 is free, and nothing otherwise. |
| `Entry.PassengerPicksNearestSeat` | client/main.js:141-167 | For other models, the seat is below the number of existing seat bones. Its distance is that of the bone at the matching table position. It is nearest among eligible seats, and the last of equals. Nothing is issued exactly when no seat qualifies. |
| `Entry.JourneyAlwaysAlternateFlag` | client/main.js:169-195 | The journey and journey2 models always get flag 16. |
| `TickGuard.CancelDefaultEntering` | client/main.js:199-203 | The first command always disables control 23. At most one more command follows, and every command is a control disable. |
| `TickGuard.HandleVehicleCancelEntering` | client/main.js:205-221 | This guard emits either nothing or a single task clear. |
| `TickGuard.DisableWindowBreaking` | client/main.js:223-237 | This guard emits either nothing or a single forced task clear. |
| `TickGuard.Tick` | client/main.js:253-257 | A tick issues one to four commands. The enter-control disable comes first. The first guard's control disables lead the list, followed by the movement-cancel guard's command and then the window-breaking guard's. A tick never enters a vehicle. |
| `TickGuard.TickCommands` | client/main.js:253-257 | See the tick conditions below the table. |
| `KeyDown.OnKeyDown` | client/main.js:239-251 | A key press issues at most one command, and it is an enter-vehicle command with timeout 5000. |
| `KeyDown.KeyDownDispatch` | client/main.js:239-251 | Key 70 runs the driver path and key 71 the passenger path. Either one runs only when the player is valid, game controls are enabled and the player is not in a vehicle. Every other key or state does nothing. |
| `KeyDown.KeyDownNeedsEntryGuard` | client/main.js:239-251 | A key press that issues a command also passed the entry guard: the cursor is hidden and task 6 is active. |

Tick conditions stated by `TickGuard.TickCommands`:

- The tick's first command disables control 23.
- Control 75 is disabled if and only if the player is in a vehicle with lock state 2.
- ClearTasks fires if and only if all four hold: the player is valid, task 163 is inactive, task 160 is active, and one of controls 32–35 was just pressed.
- ClearTasksImmediately fires if and only if all four hold: the trying-to-enter id is non-zero, it resolves to a valid vehicle, that vehicle's lock state is exactly 1, and the trying-to-enter-locked flag is set.
- When both clears fire, ClearTasks comes just before ClearTasksImmediately, at the end of the tick.
- A tick never enters a vehicle and issues at most four commands.

## Left out

- `rotationToDirection` (client/main.js:14-20): floating-point trigonometry. It only feeds the ray probe.
- `raycastGamePlayCamera` (client/main.js:22-53): a native shape test. Only its result is modelled, as the snapshot's `ray` (hit flag and hit entity). The look range 8 is an argument of that probe and is not modelled.
- The nearest-vehicle query (client/main.js:64-67): a library call. Its answer is the snapshot's `closestVehicle`. Its detection range 6 is not modelled.
- Bone world positions and `distanceTo` (client/main.js:146, 160): host geometry. Each bone's distance from the player is an input, `Vehicle.boneDistance`, compared as a real number. Floating-point rounding and NaN are not modelled.
- `alt.hash` and the bicycle and bike model queries (client/main.js:105, 107, 170-171): host calls. The model kind is the enumeration `ModelClass`, whose values are Bicycle, Bike, Journey, Journey2 and OtherModel.
- The third argument of the seat-free query (false for the driver and bike checks, true in the seat loop): the host's meaning of it is not visible. One `freeSeats` set answers every seat-free query.
- The constant arguments of the native calls: the player's own ped id, speed 1.0 and the trailing null of the enter task, and input group 0 of the control disable. They do not vary.
- What the host does with the commands (entry animation, task clearing, control suppression): outside the script. Commands are modelled only as emitted values.
- Event registration for key-down and every-tick (client/main.js:239, 253): runtime plumbing. Only the fixed order within a tick is modelled, by `TickGuard.Tick`.
