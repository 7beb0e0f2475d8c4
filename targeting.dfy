/**
 Which vehicle the player means: the one the camera ray hits, or else the nearest
 one. The ray probe and the nearest-vehicle query are host services; their
 answers are fields of the snapshot.
 */
module Targeting {
  import opened Snapshot

  /** The ray probe is always used. */
  const UseRaycast := true

  predicate RayHitsVehicle(w: World) {
    w.ray.hit && w.ray.entity in w.vehicleEntities
  }

  /** The vehicle the ray hits when it hits a vehicle entity, even when that
      entity has no script-side vehicle; the nearest vehicle otherwise. */
  function LookingOrClosestVehicle(w: World): (r: Option<Vehicle>)
    ensures RayHitsVehicle(w) ==> r == VehicleByScriptId(w, w.ray.entity)
    ensures !RayHitsVehicle(w) ==> r == w.closestVehicle
  {
    if UseRaycast && RayHitsVehicle(w) then VehicleByScriptId(w, w.ray.entity)
    else w.closestVehicle
  }

  /** A ray hit on a vehicle entity is final: the nearest-vehicle answer is
      never consulted, so a hit entity without a script-side vehicle gives none. */
  lemma RayHitHasNoFallback(w: World, nearest: Option<Vehicle>)
    requires RayHitsVehicle(w)
    ensures LookingOrClosestVehicle(w) == LookingOrClosestVehicle(w.(closestVehicle := nearest))
    ensures w.ray.entity in w.vehicles ==> LookingOrClosestVehicle(w) == Some(w.vehicles[w.ray.entity])
    ensures w.ray.entity !in w.vehicles ==> LookingOrClosestVehicle(w) == None
  {
  }

  /** Without a hit on a vehicle the answer is the nearest vehicle. */
  lemma NoHitUsesNearest(w: World)
    requires !RayHitsVehicle(w)
    ensures LookingOrClosestVehicle(w) == w.closestVehicle
  {
  }
}
