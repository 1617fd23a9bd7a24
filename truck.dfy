/**
 * Trucks: a manifest of at most 16 packages, a mileage from which the clock
 * is derived, and a count of the trips made.
 */
module Trucks {
  import opened Wrappers
  import opened Packages
  import opened Graphs

  const MaxCapacity: nat := 16
  /** Miles per hour. */
  const Speed: real := 18.0
  /** The name under which the hub is a vertex of the graph. */
  const Hub: string := "HUB"

  /** The shared counter Truck._count that numbers trucks as they are built. */
  class TruckCounter {
    var count: int

    constructor ()
      ensures count == 0
    {
      count := 0;
    }

    /** _increment_count. */
    method Next() returns (id: int)
      modifies this
      ensures count == old(count) + 1 && id == count
    {
      count := count + 1;
      id := count;
    }
  }

  /** get_time for a mileage: 8:00 am plus the driving time at 18 mph, in minutes. */
  function TimeAt(mileage: real): real {
    480.0 + mileage / Speed * 60.0
  }

  /** The day starts at 8:00 am and the clock never runs backwards as miles accumulate. */
  lemma TimeAtMonotone(m1: real, m2: real)
    requires m1 <= m2
    ensures TimeAt(0.0) == 480.0
    ensures TimeAt(m1) <= TimeAt(m2)
    ensures TimeAt(m2) - TimeAt(m1) == (m2 - m1) * 60.0 / Speed
  {
  }

  // ---------------------------------------------------------------------------
  // Routes
  // ---------------------------------------------------------------------------

  /** The distance get_distance gives between two addresses, when it is a number. */
  function Leg(D: Distances, h: string -> int, a: string, b: string): Option<real> {
    match DistanceIn(D, h(a), h(b))
    case Ok(Some(d)) => Some(d)
    case _ => None
  }

  /** The leg from stop k to stop k + 1 has a distance. */
  predicate LegKnown(D: Distances, h: string -> int, stops: seq<string>, k: nat)
    requires k + 1 < |stops|
  {
    Leg(D, h, stops[k], stops[k + 1]).Some?
  }

  /** Every leg between consecutive stops has a distance. */
  predicate RouteKnown(D: Distances, h: string -> int, stops: seq<string>) {
    forall k :: 0 <= k < |stops| - 1 ==> LegKnown(D, h, stops, k)
  }

  /** The length of a leg, counting a leg without a distance as nothing. */
  function LegLength(D: Distances, h: string -> int, a: string, b: string): real {
    match Leg(D, h, a, b)
    case Some(d) => d
    case None => 0.0
  }

  /**
   * The sum of the legs between consecutive stops. It is what a truck drives
   * only when RouteKnown holds; on other routes it is merely defined.
   */
  function RouteLength(D: Distances, h: string -> int, stops: seq<string>): real
    decreases |stops|
  {
    if |stops| < 2 then 0.0
    else
      var n := |stops|;
      RouteLength(D, h, stops[..n - 1]) + LegLength(D, h, stops[n - 2], stops[n - 1])
  }

  /** Extending a known route by one known leg adds that leg's distance. */
  lemma RouteStep(D: Distances, h: string -> int, stops: seq<string>, i: nat)
    requires i + 1 < |stops| && RouteKnown(D, h, stops[..i + 1]) && Leg(D, h, stops[i], stops[i + 1]).Some?
    ensures RouteKnown(D, h, stops[..i + 2])
    ensures RouteLength(D, h, stops[..i + 2]) ==
            RouteLength(D, h, stops[..i + 1]) + Leg(D, h, stops[i], stops[i + 1]).value
  {
    var p := stops[..i + 2];
    assert p[..i + 1] == stops[..i + 1];
    forall k | 0 <= k < |p| - 1 ensures LegKnown(D, h, p, k) {
      if k < i {
        assert LegKnown(D, h, stops[..i + 1], k);
      }
    }
  }

  /** Completing a route with its last known leg makes the whole route known and adds that leg. */
  lemma RouteEnd(D: Distances, h: string -> int, stops: seq<string>)
    requires |stops| >= 2 && RouteKnown(D, h, stops[..|stops| - 1])
    requires Leg(D, h, stops[|stops| - 2], stops[|stops| - 1]).Some?
    ensures RouteKnown(D, h, stops)
    ensures RouteLength(D, h, stops) ==
            RouteLength(D, h, stops[..|stops| - 1]) + Leg(D, h, stops[|stops| - 2], stops[|stops| - 1]).value
  {
    var n := |stops| - 2;
    RouteStep(D, h, stops, n);
    assert stops[..n + 2] == stops;
  }

  /** A route with a leg of unknown length is not known. */
  lemma RouteBreaks(D: Distances, h: string -> int, stops: seq<string>, i: nat)
    requires i + 1 < |stops| && Leg(D, h, stops[i], stops[i + 1]).None?
    ensures !RouteKnown(D, h, stops)
  {
    assert !LegKnown(D, h, stops, i);
  }

  /** Every prefix of a known route is known. */
  lemma RoutePrefix(D: Distances, h: string -> int, stops: seq<string>, n: nat)
    requires n <= |stops| && RouteKnown(D, h, stops)
    ensures RouteKnown(D, h, stops[..n])
  {
    forall k | 0 <= k < n - 1 ensures LegKnown(D, h, stops[..n], k) {
      assert LegKnown(D, h, stops, k);
    }
  }

  /** A known route is never shorter than any of its prefixes when no distance is negative. */
  lemma {:induction false} RouteGrows(D: Distances, h: string -> int, stops: seq<string>, n: nat)
    requires n <= |stops|
    requires forall a, b :: LegLength(D, h, a, b) >= 0.0
    ensures RouteLength(D, h, stops[..n]) <= RouteLength(D, h, stops)
    decreases |stops|
  {
    if n < |stops| {
      var m := |stops| - 1;
      assert stops[..m][..n] == stops[..n];
      RouteGrows(D, h, stops[..m], n);
      assert RouteLength(D, h, stops[..m]) <= RouteLength(D, h, stops) by {
        assert |stops| >= 2 || n == 0;
      }
    } else {
      assert stops[..n] == stops;
    }
  }

  /** The addresses of a manifest, in order. */
  function Addresses(ps: seq<Package>): (r: seq<string>)
    reads ps`addressZip
    ensures |r| == |ps| && forall k :: 0 <= k < |ps| ==> r[k] == ps[k].addressZip
  {
    if ps == [] then [] else Addresses(ps[..|ps| - 1]) + [ps[|ps| - 1].addressZip]
  }

  /** The round trip deliver drives: from the hub through every address in manifest order and back. */
  function Route(ps: seq<Package>): (r: seq<string>)
    reads ps
    ensures |r| == |ps| + 2 && r[0] == Hub && r[|r| - 1] == Hub
    ensures forall k :: 0 <= k < |ps| ==> r[k + 1] == ps[k].addressZip
  {
    [Hub] + Addresses(ps) + [Hub]
  }

  /** An empty manifest still drives from the hub to the hub. */
  lemma EmptyRoute(D: Distances, h: string -> int)
    ensures Route([]) == [Hub, Hub]
    ensures RouteKnown(D, h, [Hub, Hub]) <==> Leg(D, h, Hub, Hub).Some?
    ensures RouteKnown(D, h, [Hub, Hub]) ==> RouteLength(D, h, [Hub, Hub]) == Leg(D, h, Hub, Hub).value
  {
    assert [Hub, Hub][..1] == [Hub];
    assert RouteKnown(D, h, [Hub, Hub]) ==> LegKnown(D, h, [Hub, Hub], 0);
  }

  /** The statuses of a manifest, in order. */
  function Statuses(ps: seq<Package>): (r: seq<Status>)
    reads ps
    ensures |r| == |ps| && forall k :: 0 <= k < |ps| ==> r[k] == ps[k].status
  {
    if ps == [] then [] else Statuses(ps[..|ps| - 1]) + [ps[|ps| - 1].status]
  }

  /** What a trip leaves as it was on each package: when it was loaded and which packages travel with it. */
  datatype Kept = Kept(loadedAt: Option<real>, associated: seq<Package>)

  /** The load times and associates of a manifest, in order. */
  function Snapshot(ps: seq<Package>): (r: seq<Kept>)
    reads ps
    ensures |r| == |ps| && forall k :: 0 <= k < |ps| ==> r[k] == Kept(ps[k].loadedAt, ps[k].associated)
  {
    if ps == [] then [] else Snapshot(ps[..|ps| - 1]) + [Kept(ps[|ps| - 1].loadedAt, ps[|ps| - 1].associated)]
  }

  /** Places j and k of the manifest hold different packages. */
  predicate Apart(ps: seq<Package>, j: nat, k: nat)
    requires j < |ps| && k < |ps|
  {
    ps[j] != ps[k]
  }

  /**
   * No package occurs twice. Stated through Apart so that the fact is only
   * used for the pairs of places a proof names.
   */
  predicate Distinct(ps: seq<Package>) {
    forall j, k :: 0 <= j < k < |ps| ==> Apart(ps, j, k)
  }

  /** `at` maps each of the first i packages of ps to its place, and holds nothing else. */
  ghost predicate Placed(ps: seq<Package>, at: map<Package, int>, i: nat) {
    i <= |ps| &&
    (forall k :: 0 <= k < i ==> ps[k] in at && at[ps[k]] == k) &&
    (forall p :: p in at ==> 0 <= at[p] < i && ps[at[p]] == p)
  }

  /** A package not met before takes the next place. */
  lemma PlaceNext(ps: seq<Package>, at: map<Package, int>, i: nat)
    requires Placed(ps, at, i) && i < |ps| && ps[i] !in at
    ensures Placed(ps, at[ps[i] := i], i + 1)
    ensures forall k :: 0 <= k < i ==> ps[k] != ps[i]
  {
  }

  /** A package met before is at an earlier place, so the manifest repeats it. */
  lemma PlacedTwice(ps: seq<Package>, at: map<Package, int>, i: nat)
    requires Placed(ps, at, i) && i < |ps| && ps[i] in at
    ensures !Distinct(ps)
  {
    assert !Apart(ps, at[ps[i]], i);
  }

  /** Once all places are recorded, no package occurs twice. */
  lemma PlacedAll(ps: seq<Package>, at: map<Package, int>)
    requires Placed(ps, at, |ps|)
    ensures Distinct(ps)
  {
    forall j, k | 0 <= j < k < |ps| ensures Apart(ps, j, k) {
      assert at[ps[j]] == j && at[ps[k]] == k;
    }
  }

  /** The clock when the truck, having started at mileage m0, ends the leg to the k-th package's stop. */
  ghost function StopTime(D: Distances, h: string -> int, m0: real, stops: seq<string>, k: nat): real
    requires k + 2 <= |stops|
  {
    TimeAt(m0 + RouteLength(D, h, stops[..k + 2]))
  }

  /** Package p is delivered on trip `number` at clock t. */
  ghost predicate DeliveredOn(p: Package, number: int, t: real)
    reads p
  {
    p.status == Delivered && p.deliveryNumber == number && p.deliveredAt == Some(t)
  }

  /** Package p still goes to `stop`, and its load time and associates are those `kept` records. */
  ghost predicate Bound(p: Package, stop: string, kept: Kept)
    reads p
  {
    p.addressZip == stop && p.loadedAt == kept.loadedAt && p.associated == kept.associated
  }

  class Truck {
    const id: int
    var packages: seq<Package>
    var mileage: real
    var delivered: int

    /** The manifest never exceeds the capacity. */
    predicate Valid()
      reads this
    {
      |packages| <= MaxCapacity
    }

    /** Truck(): the next number from the counter, no miles, no trips, nothing loaded. */
    constructor (counter: TruckCounter)
      modifies counter
      ensures Valid()
      ensures id == old(counter.count) + 1 && counter.count == id
      ensures packages == [] && mileage == 0.0 && delivered == 0
    {
      var n := counter.Next();
      id := n;
      packages := [];
      mileage := 0.0;
      delivered := 0;
    }

    /** get_time. */
    function Time(): real
      reads this
    {
      TimeAt(mileage)
    }

    /** available_space. */
    function AvailableSpace(): (n: int)
      reads this
      ensures Valid() ==> 0 <= n <= MaxCapacity
      ensures n == 0 <==> IsFull()
    {
      MaxCapacity - |packages|
    }

    predicate IsFull()
      reads this
    {
      |packages| == MaxCapacity
    }

    predicate IsEmpty()
      reads this
    {
      |packages| == 0
    }

    /** location: the hub when nothing is loaded, else where the last package loaded goes. */
    function Location(): (s: string)
      reads this, packages
      ensures packages == [] ==> s == Hub
      ensures packages != [] ==> s == packages[|packages| - 1].addressZip
    {
      if IsEmpty() then Hub else packages[|packages| - 1].addressZip
    }

    /** load: refused on a full truck; otherwise set_enroute, and only if it succeeds the append. */
    method Load(p: Package) returns (r: Outcome<Error>)
      requires Valid()
      modifies this, p`status, p`deliveredBy, p`loadedAt
      ensures Valid() && mileage == old(mileage) && delivered == old(delivered)
      ensures old(IsFull()) ==> r == Fail(TruckFull)
      ensures r.Fail? ==> packages == old(packages) && unchanged(p) && r.error in {TruckFull, AlreadyEnRoute, WrongTruck}
      ensures r.Pass? <==> !old(IsFull()) && old(p.status) != EnRoute &&
                           (old(p.requiredTruck).None? || old(p.requiredTruck).value in {0, id})
      ensures r.Pass? ==> packages == old(packages) + [p] && p.status == EnRoute &&
                          p.loadedAt == Some(old(Time())) && p.deliveredBy == Some(id)
      ensures r.Pass? ==> p.addressZip == old(p.addressZip) && p.wrongAddress == old(p.wrongAddress) &&
                          p.availableAt == old(p.availableAt) && p.requiredTruck == old(p.requiredTruck) &&
                          p.deliveredAt == old(p.deliveredAt) && p.associated == old(p.associated)
    {
      if IsFull() {
        return Fail(TruckFull);
      }
      r := p.SetEnroute(id, Time());
      if r.Pass? {
        packages := packages + [p];
      }
    }

    /**
     * Where deliver stands after i legs of the trip along `stops` (the
     * route of the manifest `ps`), starting from mileage m0 with the
     * packages in statuses st0 and with the load times and associates sn0:
     * the legs so far are known and driven; the first i packages are different packages, none of them
     * delivered before the trip, each now delivered at the clock its leg
     * ended; at maps each of them to its place; the others are untouched.
     */
    ghost predicate Delivering(ps: seq<Package>, stops: seq<string>, D: Distances, h: string -> int, m0: real,
                               st0: seq<Status>, sn0: seq<Kept>, at: map<Package, int>, i: nat)
      reads this, ps
    {
      |stops| == |ps| + 2 && |st0| == |ps| && |sn0| == |ps| && i <= |ps| && packages == ps &&
      RouteKnown(D, h, stops[..i + 1]) && mileage == m0 + RouteLength(D, h, stops[..i + 1]) &&
      Placed(ps, at, i) &&
      (forall k :: 0 <= k < |ps| ==> Bound(ps[k], stops[k + 1], sn0[k])) &&
      (forall k :: i <= k < |ps| && ps[k] !in at ==> ps[k].status == st0[k]) &&
      (forall k :: 0 <= k < i ==>
         st0[k] != Delivered && DeliveredOn(ps[k], delivered, StopTime(D, h, m0, stops, k)))
    }

    /**
     * Every package of the manifest `ps` is delivered on trip `number`, still
     * addressed to its stop on the route `stops`, with the load time and
     * associates sn0 records, and delivered at the clock reached when the leg to its stop ended,
     * the truck having started the trip at mileage m0.
     */
    ghost predicate TripDone(ps: seq<Package>, stops: seq<string>, D: Distances, h: string -> int, m0: real,
                             sn0: seq<Kept>, number: int)
      reads ps
    {
      |stops| == |ps| + 2 && |sn0| == |ps| &&
      forall k :: 0 <= k < |ps| ==>
        DeliveredOn(ps[k], number, StopTime(D, h, m0, stops, k)) && Bound(ps[k], stops[k + 1], sn0[k])
    }

    /** After a finished trip every package of its manifest is delivered. */
    lemma TripDelivers(ps: seq<Package>, stops: seq<string>, D: Distances, h: string -> int, m0: real,
                       sn0: seq<Kept>, number: int)
      requires TripDone(ps, stops, D, h, m0, sn0, number)
      ensures forall p :: p in ps ==> p.status == Delivered
    {
      forall p | p in ps ensures p.status == Delivered {
        var k :| 0 <= k < |ps| && ps[k] == p;
        assert DeliveredOn(ps[k], number, StopTime(D, h, m0, stops, k));
      }
    }

    /**
     * The part of one pass of deliver's loop that follows the distance
     * lookup: the leg is added to the mileage, then the package's delivery
     * is completed at the new clock. It fails only when the package was
     * delivered before the trip or already on it.
     */
    method DriveTo(pkg: Package, leg: real, ghost ps: seq<Package>, ghost stops: seq<string>,
                   ghost D: Distances, ghost h: string -> int, ghost m0: real,
                   ghost st0: seq<Status>, ghost sn0: seq<Kept>, ghost at: map<Package, int>, ghost i: nat)
      returns (r: Outcome<Error>)
      requires Delivering(ps, stops, D, h, m0, st0, sn0, at, i)
      requires i < |ps| && pkg == ps[i] && Leg(D, h, stops[i], stops[i + 1]) == Some(leg)
      modifies this, pkg`status, pkg`deliveredAt, pkg`deliveryNumber
      ensures packages == old(packages) && delivered == old(delivered)
      ensures r.Fail? ==> !Distinct(ps) || st0[i] == Delivered
      ensures r.Pass? ==> Delivering(ps, stops, D, h, m0, st0, sn0, at[pkg := i], i + 1)
    {
      if pkg in at {
        PlacedTwice(ps, at, i);
      } else {
        PlaceNext(ps, at, i);
      }
      ghost var before := pkg.status;
      mileage := mileage + leg;
      r := pkg.CompleteDelivery(Time(), delivered);
      if r.Fail? {
        return;
      }
      assert before == st0[i];
      RouteStep(D, h, stops, i);
    }

    /** Once the loop has delivered every package of the manifest, the trip's outcome for the packages is settled. */
    lemma AllDelivered(ps: seq<Package>, stops: seq<string>, D: Distances, h: string -> int, m0: real,
                       st0: seq<Status>, sn0: seq<Kept>, at: map<Package, int>)
      requires Delivering(ps, stops, D, h, m0, st0, sn0, at, |ps|)
      ensures TripDone(ps, stops, D, h, m0, sn0, delivered) && Distinct(ps) && Delivered !in st0
    {
      PlacedAll(ps, at);
    }

    /**
     * The end of deliver, once every leg but the last of `stops` is driven:
     * the manifest is cleared and then the leg from curr back to the hub is
     * driven, which fails when its distance is unknown. The lookup does not
     * see the truck, so it is made first; the manifest is cleared on failure too.
     */
    method ReturnToHub(g: Graph, curr: string, ghost ps: seq<Package>, ghost stops: seq<string>, ghost m0: real)
      returns (r: Outcome<Error>)
      requires g.Valid() && |stops| >= 2 && curr == stops[|stops| - 2] && stops[|stops| - 1] == Hub
      requires RouteKnown(g.Dist, g.h, stops[..|stops| - 1]) && mileage == m0 + RouteLength(g.Dist, g.h, stops[..|stops| - 1])
      modifies this
      ensures packages == [] && delivered == old(delivered) && unchanged(ps)
      ensures r.Pass? <==> RouteKnown(g.Dist, g.h, stops)
      ensures r.Pass? ==> mileage == m0 + RouteLength(g.Dist, g.h, stops)
    {
      var d := g.GetDistance(curr, Hub);
      packages := [];
      if d.Err? || d.value.None? {
        RouteBreaks(g.Dist, g.h, stops, |stops| - 2);
        return if d.Err? then Fail(d.error) else Fail(MissingDistance);
      }
      RouteEnd(g.Dist, g.h, stops);
      mileage := mileage + d.value.value;
      return Pass;
    }

    /**
     * One pass of deliver's loop: the leg from prev to the address of the
     * i-th package is looked up, then driven and the package delivered.
     */
    method Visit(g: Graph, prev: string, ghost ps: seq<Package>, ghost stops: seq<string>,
                 ghost D: Distances, ghost h: string -> int, ghost m0: real,
                 ghost st0: seq<Status>, ghost sn0: seq<Kept>, ghost at: map<Package, int>, i: nat)
      returns (r: Outcome<Error>, curr: string)
      requires g.Valid() && g.Dist == D && g.h == h
      requires Delivering(ps, stops, D, h, m0, st0, sn0, at, i) && i < |ps| && prev == stops[i]
      modifies this, {ps[i]}`status, {ps[i]}`deliveredAt, {ps[i]}`deliveryNumber
      ensures packages == old(packages) && delivered == old(delivered) && curr == stops[i + 1]
      ensures r.Fail? ==> !(RouteKnown(D, h, stops) && Distinct(ps) && Delivered !in st0)
      ensures r.Pass? ==> Delivering(ps, stops, D, h, m0, st0, sn0, at[ps[i] := i], i + 1)
    {
      var pkg := packages[i];
      curr := pkg.addressZip;
      var d := g.GetDistance(prev, curr);
      if d.Err? || d.value.None? {
        RouteBreaks(D, h, stops, i);
        return if d.Err? then Fail(d.error) else Fail(MissingDistance), curr;
      }
      r := DriveTo(pkg, d.value.value, ps, stops, D, h, m0, st0, sn0, at, i);
    }

    /**
     * deliver's loop: for each package of the manifest in turn, the leg from
     * the previous stop to its address is looked up and driven, and the
     * package delivered. On success every leg but the last is driven and curr
     * is the last stop before the hub.
     */
    method DriveLegs(g: Graph, ghost stops: seq<string>, ghost D: Distances, ghost h: string -> int, ghost m0: real,
                     ghost st0: seq<Status>, ghost sn0: seq<Kept>)
      returns (r: Outcome<Error>, curr: string, ghost at: map<Package, int>)
      requires g.Valid() && g.Dist == D && g.h == h
      requires this !in g.Repr && forall p :: p in packages ==> p !in g.Repr
      requires Delivering(packages, stops, D, h, m0, st0, sn0, map[], 0) && stops[0] == Hub
      modifies this, packages`status, packages`deliveredAt, packages`deliveryNumber
      ensures g.Valid() && unchanged(g) && packages == old(packages) && delivered == old(delivered)
      ensures r.Fail? ==> !(RouteKnown(D, h, stops) && Distinct(packages) && Delivered !in st0)
      ensures r.Pass? ==> curr == stops[|packages|] && Delivering(packages, stops, D, h, m0, st0, sn0, at, |packages|)
    {
      ghost var ps := packages;
      at := map[];
      curr := Hub;
      for i := 0 to |packages|
        invariant unchanged(g) && unchanged(old(g.Repr))
        invariant delivered == old(delivered) && curr == stops[i]
        invariant Delivering(ps, stops, D, h, m0, st0, sn0, at, i)
      {
        var prev := curr;
        g.StillValid();
        r, curr := Visit(g, prev, ps, stops, D, h, m0, st0, sn0, at, i);
        if r.Fail? {
          g.StillValid();
          return;
        }
        at := at[ps[i] := i];
      }
      g.StillValid();
      r := Pass;
    }

    /**
     * deliver: one more trip; drive HUB -> each package's address -> HUB,
     * completing each delivery right after its leg, then empty the manifest.
     * A leg through an unknown vertex or without a distance, or a package that
     * is already delivered, raises.
     */
    method Deliver(g: Graph) returns (r: Outcome<Error>)
      requires g.Valid() && Valid()
      requires this !in g.Repr && forall p :: p in packages ==> p !in g.Repr
      modifies this, packages`status, packages`deliveredAt, packages`deliveryNumber
      ensures Valid()
      ensures r.Pass? <==> RouteKnown(g.Dist, g.h, old(Route(packages))) && Distinct(old(packages)) &&
                           Delivered !in old(Statuses(packages))
      ensures r.Pass? ==> packages == [] && delivered == old(delivered) + 1 &&
                          mileage == old(mileage) + RouteLength(g.Dist, g.h, old(Route(packages)))
      ensures r.Pass? ==> TripDone(old(packages), old(Route(packages)), g.Dist, g.h, old(mileage),
                                   old(Snapshot(packages)), delivered)
      ensures r.Pass? ==> forall p :: p in old(packages) ==> old(p.status) != Delivered && p.status == Delivered
    {
      ghost var ps := packages;
      ghost var stops := Route(ps);
      ghost var D, h, m0 := g.Dist, g.h, mileage;
      ghost var st0, sn0 := Statuses(ps), Snapshot(ps);
      delivered := delivered + 1;
      assert stops[..1] == [Hub];
      assert Delivering(ps, stops, D, h, m0, st0, sn0, map[], 0);
      var curr;
      ghost var at;
      r, curr, at := DriveLegs(g, stops, D, h, m0, st0, sn0);
      if r.Fail? {
        return;
      }
      AllDelivered(ps, stops, D, h, m0, st0, sn0, at);
      assert stops[..|stops| - 1] == stops[..|ps| + 1];
      r := ReturnToHub(g, curr, ps, stops, m0);
      TripDelivers(ps, stops, D, h, m0, sn0, delivered);
    }
  }
}
