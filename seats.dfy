/**
 The passenger seat selector. The vehicle's seat bones are looked up by name in a
 fixed order; missing bones are dropped, so a seat number is a position in the
 compacted list of existing bones. The selector then keeps the free seats,
 drops the grab seats unless the passenger-mode key is held, and takes the
 nearest of the rest; on equal distances the later seat wins.
 */
module Seats {
  import opened Snapshot

  /** The seat bones, in the order they are looked up. */
  const SeatBoneNames: seq<string> := [
    "seat_pside_f",
    "seat_dside_r", "seat_dside_r1", "seat_dside_r2", "seat_dside_r3",
    "seat_dside_r4", "seat_dside_r5", "seat_dside_r6", "seat_dside_r7",
    "seat_pside_r", "seat_pside_r1", "seat_pside_r2", "seat_pside_r3",
    "seat_pside_r4", "seat_pside_r5", "seat_pside_r6", "seat_pside_r7"]

  /** The bone index the host reports for a name the vehicle does not have. */
  const NoBone := -1

  /** The selector's answer when no seat qualifies. */
  const NoSeat := -1

  /** Seats that are only taken while the passenger-mode key is held. */
  const GrabSeats: set<int> := {3, 4, 5, 6}

  /** The starting "closest distance": the largest integer a double holds exactly. */
  const MaxSafeInteger: real := 9007199254740991.0

  /** The bone indices of the seat bones, one per name, missing ones as NoBone. */
  function SeatBones(v: Vehicle): (bones: seq<int>)
    ensures |bones| == |SeatBoneNames|
    ensures forall k :: 0 <= k < |bones| ==> bones[k] == v.boneIndex(SeatBoneNames[k])
  {
    seq(|SeatBoneNames|, k requires 0 <= k < |SeatBoneNames| => v.boneIndex(SeatBoneNames[k]))
  }

  /** The bones that exist, in lookup order. */
  function ExistingBones(bones: seq<int>): (r: seq<int>)
    ensures |r| <= |bones|
    ensures forall b :: b in r <==> b in bones && b != NoBone
  {
    if bones == [] then []
    else
      var last := bones[|bones| - 1];
      var rest := ExistingBones(bones[..|bones| - 1]);
      assert bones == bones[..|bones| - 1] + [last];
      if last == NoBone then rest else rest + [last]
  }

  /** The table positions of the bones that exist, in lookup order. */
  function ExistingPositions(bones: seq<int>): (p: seq<nat>)
    ensures |p| == |ExistingBones(bones)|
    ensures forall k :: 0 <= k < |p| ==> p[k] < |bones|
  {
    if bones == [] then []
    else
      var rest := ExistingPositions(bones[..|bones| - 1]);
      if bones[|bones| - 1] == NoBone then rest else rest + [|bones| - 1]
  }

  /** Compaction keeps the table order: seat k is the bone at the k-th table
      position that holds a bone, the positions increase, and every position
      holding a bone is among them. */
  lemma {:induction false} ExistingBonesKeepOrder(bones: seq<int>)
    ensures var r, p := ExistingBones(bones), ExistingPositions(bones);
      && |p| == |r|
      && (forall k :: 0 <= k < |p| ==> p[k] < |bones| && bones[p[k]] != NoBone && r[k] == bones[p[k]])
      && (forall k, m :: 0 <= k < m < |p| ==> p[k] < p[m])
      && (forall i :: 0 <= i < |bones| && bones[i] != NoBone ==> i in p)
  {
    if bones != [] {
      var n := |bones| - 1;
      var pre := bones[..n];
      ExistingBonesKeepOrder(pre);
      assert forall i :: 0 <= i < n ==> bones[i] == pre[i];
    }
  }

  /** The distance of each existing bone, indexed by seat number. */
  function DistancesOf(existing: seq<int>, dist: int -> real): (ds: seq<real>)
    ensures |ds| == |existing|
    ensures forall k :: 0 <= k < |ds| ==> ds[k] == dist(existing[k])
  {
    seq(|existing|, k requires 0 <= k < |existing| => dist(existing[k]))
  }

  /** The seat positions list of a vehicle: one distance per existing seat bone. */
  function SeatDistances(v: Vehicle): (ds: seq<real>)
    ensures |ds| == |ExistingBones(SeatBones(v))| <= |SeatBoneNames|
    ensures forall k :: 0 <= k < |ds| ==> ds[k] == v.boneDistance(ExistingBones(SeatBones(v))[k])
  {
    DistancesOf(ExistingBones(SeatBones(v)), v.boneDistance)
  }

  /** Builds the seat positions list: one entry per existing seat bone. */
  method CollectSeatDistances(v: Vehicle) returns (ds: seq<real>)
    ensures ds == SeatDistances(v)
    ensures |ds| <= |SeatBoneNames|
  {
    var bones := SeatBones(v);
    ds := [];
    for i := 0 to |bones|
      invariant ds == DistancesOf(ExistingBones(bones[..i]), v.boneDistance)
    {
      assert bones[..i + 1][..i] == bones[..i];
      if bones[i] == NoBone {
        continue;
      }
      ds := ds + [v.boneDistance(bones[i])];
    }
    assert bones[..|bones|] == bones;
  }

  /** A seat the loop does not skip before comparing distances. */
  predicate Eligible(i: int, free: set<int>, held: bool) {
    i in free && (i !in GrabSeats || held)
  }

  /** An eligible seat near enough to beat the starting distance. */
  predicate Candidate(ds: seq<real>, i: int, free: set<int>, held: bool)
    requires 0 <= i < |ds|
  {
    Eligible(i, free, held) && ds[i] <= MaxSafeInteger
  }

  datatype ScanState = ScanState(seat: int, distance: real)

  /** The selector's state after looking at the first n seats. */
  function Scan(ds: seq<real>, free: set<int>, held: bool, n: nat): (s: ScanState)
    requires n <= |ds|
    ensures NoSeat <= s.seat < n
    ensures s.distance <= MaxSafeInteger
  {
    if n == 0 then ScanState(NoSeat, MaxSafeInteger)
    else
      var prev := Scan(ds, free, held, n - 1);
      var i := n - 1;
      if !Eligible(i, free, held) || ds[i] > prev.distance then prev
      else ScanState(i, ds[i])
  }

  /** The seat the selector picks, or NoSeat. */
  function ClosestFreeSeat(ds: seq<real>, free: set<int>, held: bool): (seat: int)
    ensures NoSeat <= seat < |ds|
    ensures seat != NoSeat ==> Candidate(ds, seat, free, held)
  {
    ScanInvariant(ds, free, held, |ds|);
    Scan(ds, free, held, |ds|).seat
  }

  /** After n seats, the state holds the nearest eligible seat so far (the last
      of equals), or NoSeat with the starting distance when every eligible seat
      so far is farther than it. */
  lemma {:induction false} ScanInvariant(ds: seq<real>, free: set<int>, held: bool, n: nat)
    requires n <= |ds|
    ensures var s := Scan(ds, free, held, n);
      && NoSeat <= s.seat < n
      && s.distance <= MaxSafeInteger
      && (s.seat == NoSeat ==> s.distance == MaxSafeInteger)
      && (s.seat != NoSeat ==> Eligible(s.seat, free, held) && s.distance == ds[s.seat])
      && (forall j :: 0 <= j < n && Eligible(j, free, held) ==> s.distance <= ds[j])
      && (forall j :: s.seat < j < n && Eligible(j, free, held) ==> s.distance < ds[j])
  {
    if n > 0 {
      ScanInvariant(ds, free, held, n - 1);
    }
  }

  /** The chosen seat is a free, allowed seat at minimal distance, the highest
      such index on ties; NoSeat exactly when no seat qualifies. */
  lemma ClosestFreeSeatSpec(ds: seq<real>, free: set<int>, held: bool)
    ensures var s := ClosestFreeSeat(ds, free, held);
      && NoSeat <= s < |ds|
      && (s == NoSeat <==> forall j :: 0 <= j < |ds| ==> !Candidate(ds, j, free, held))
      && (s != NoSeat ==>
            && s in free
            && (s in GrabSeats ==> held)
            && ds[s] <= MaxSafeInteger
            && (forall j :: 0 <= j < |ds| && Eligible(j, free, held) ==> ds[s] <= ds[j])
            && (forall j :: s < j < |ds| && Eligible(j, free, held) ==> ds[s] < ds[j]))
  {
    ScanInvariant(ds, free, held, |ds|);
    var s := ClosestFreeSeat(ds, free, held);
    if s != NoSeat {
      assert Candidate(ds, s, free, held);
    }
  }

  /** The three properties above determine the seat: the selector is the
      last-of-equals nearest-seat rule and nothing else. */
  lemma ClosestFreeSeatUnique(ds: seq<real>, free: set<int>, held: bool, s: int)
    requires 0 <= s < |ds| && Candidate(ds, s, free, held)
    requires forall j :: 0 <= j < |ds| && Eligible(j, free, held) ==> ds[s] <= ds[j]
    requires forall j :: s < j < |ds| && Eligible(j, free, held) ==> ds[s] < ds[j]
    ensures ClosestFreeSeat(ds, free, held) == s
  {
    ClosestFreeSeatSpec(ds, free, held);
  }

  /** The closest-seat loop. */
  method ClosestFreeSeatIndex(ds: seq<real>, free: set<int>, held: bool) returns (seat: int)
    ensures seat == ClosestFreeSeat(ds, free, held)
    ensures NoSeat <= seat < |ds|
    ensures seat == NoSeat <==> forall j :: 0 <= j < |ds| ==> !Candidate(ds, j, free, held)
    ensures seat != NoSeat ==> seat in free && (seat in GrabSeats ==> held)
    ensures seat != NoSeat ==> forall j :: 0 <= j < |ds| && Eligible(j, free, held) ==> ds[seat] <= ds[j]
    ensures seat != NoSeat ==> forall j :: seat < j < |ds| && Eligible(j, free, held) ==> ds[seat] < ds[j]
  {
    seat := NoSeat;
    var closestDistance := MaxSafeInteger;
    for i := 0 to |ds|
      invariant ScanState(seat, closestDistance) == Scan(ds, free, held, i)
    {
      if i !in free {
        continue;
      }
      if i in GrabSeats && !held {
        continue;
      }
      var seatDistance := ds[i];
      if seatDistance > closestDistance {
        continue;
      }
      closestDistance := seatDistance;
      seat := i;
    }
    ClosestFreeSeatSpec(ds, free, held);
  }
}
