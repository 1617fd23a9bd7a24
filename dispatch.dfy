/**
 * The value-level rules the scheduler follows: the first-minimum scan, the
 * order-keeping lists that stand for Python sets of packages, the two-hop
 * group of a package, the sweep over the wrong-address list that removes
 * while it iterates, and what loading the two input files builds.
 */
module Dispatch {
  import opened Wrappers
  import opened Common
  import opened Locations
  import opened Graphs
  import opened Packages
  import opened Trucks

  // ---------------------------------------------------------------------------
  // The first smallest distance
  // ---------------------------------------------------------------------------

  /**
   * The place a scan finds when it starts from infinity and takes a value
   * only when it is strictly smaller than the best so far: the first place
   * holding the smallest value.
   */
  function FirstMin(ds: seq<real>): (i: nat)
    requires ds != []
    ensures i < |ds|
    ensures forall j :: 0 <= j < i ==> ds[i] < ds[j]
    ensures forall j :: i < j < |ds| ==> ds[i] <= ds[j]
  {
    if |ds| == 1 then 0
    else
      var i := FirstMin(ds[..|ds| - 1]);
      if ds[|ds| - 1] < ds[i] then |ds| - 1 else i
  }

  /**
   * get_distance(a, b) where the caller goes on to compare it with a number:
   * an unknown a raises, and a missing edge gives None, which raises in the
   * comparison.
   */
  function LegBetween(D: Distances, h: string -> int, a: string, b: string): (r: Result<real, Error>)
    ensures r.Ok? <==> h(a) in D && h(b) in D[h(a)]
    ensures r.Ok? ==> r.value == D[h(a)][h(b)]
    ensures r.Err? ==> r.error == (if h(a) in D then MissingDistance else UnknownVertex)
  {
    match DistanceIn(D, h(a), h(b))
    case Err(e) => Err(e)
    case Ok(None) => Err(MissingDistance)
    case Ok(Some(d)) => Ok(d)
  }

  /** The leg between a package's address a and loc: from a, or from loc when outbound. */
  function LegOf(D: Distances, h: string -> int, a: string, loc: string, outbound: bool): Result<real, Error>
  {
    if outbound then LegBetween(D, h, loc, a) else LegBetween(D, h, a, loc)
  }

  /** The legs of the addresses addrs in turn; the first that fails stops the scan with its error. */
  function Legs(D: Distances, h: string -> int, addrs: seq<string>, loc: string, outbound: bool): (r: Result<seq<real>, Error>)
    ensures r.Ok? ==> |r.value| == |addrs|
    ensures r.Err? ==> r.error in {UnknownVertex, MissingDistance}
    decreases |addrs|
  {
    if addrs == [] then Ok([])
    else
      var n := |addrs| - 1;
      var prefix := Legs(D, h, addrs[..n], loc, outbound);
      if prefix.Err? then Err(prefix.error)
      else
        var last := LegOf(D, h, addrs[n], loc, outbound);
        if last.Err? then Err(last.error) else Ok(prefix.value + [last.value])
  }

  /** A scan that reaches an address whose leg is unknown fails with that lookup's error. */
  lemma ScanFails(D: Distances, h: string -> int, addrs: seq<string>, loc: string, outbound: bool, i: nat, ds: seq<real>)
    requires i < |addrs| && Legs(D, h, addrs[..i], loc, outbound) == Ok(ds) && LegOf(D, h, addrs[i], loc, outbound).Err?
    ensures Legs(D, h, addrs, loc, outbound) == Err(LegOf(D, h, addrs[i], loc, outbound).error)
  {
    LegsExtend(D, h, addrs, loc, outbound, i);
    LegsErrSticky(D, h, addrs, loc, outbound, i + 1);
  }

  /**
   * A scan that reaches an address whose leg is x adds x to the legs, and
   * the first nearest moves to that address exactly when x is strictly below
   * the best so far.
   */
  lemma ScanExtends(D: Distances, h: string -> int, addrs: seq<string>, loc: string, outbound: bool,
                    i: nat, ds: seq<real>, x: real)
    requires i < |addrs| && Legs(D, h, addrs[..i], loc, outbound) == Ok(ds) && LegOf(D, h, addrs[i], loc, outbound) == Ok(x)
    ensures Legs(D, h, addrs[..i + 1], loc, outbound) == Ok(ds + [x])
    ensures var m := FirstMin(ds + [x]);
            m == (if ds == [] || x < ds[FirstMin(ds)] then i else FirstMin(ds)) &&
            (ds + [x])[m] == (if ds == [] || x < ds[FirstMin(ds)] then x else ds[FirstMin(ds)])
  {
    LegsExtend(D, h, addrs, loc, outbound, i);
    assert (ds + [x])[..|ds|] == ds;
  }

  /** The scan succeeds exactly when every leg is known, and then lists them in order. */
  lemma {:induction false} LegsMeaning(D: Distances, h: string -> int, addrs: seq<string>, loc: string, outbound: bool)
    ensures Legs(D, h, addrs, loc, outbound).Ok? <==> forall i :: 0 <= i < |addrs| ==> LegOf(D, h, addrs[i], loc, outbound).Ok?
    ensures Legs(D, h, addrs, loc, outbound).Ok? ==>
              forall i :: 0 <= i < |addrs| ==> LegOf(D, h, addrs[i], loc, outbound) == Ok(Legs(D, h, addrs, loc, outbound).value[i])
  {
    if addrs != [] {
      var n := |addrs| - 1;
      LegsMeaning(D, h, addrs[..n], loc, outbound);
      assert forall i :: 0 <= i < n ==> addrs[..n][i] == addrs[i];
    }
  }

  /** One more address: its leg joins the list unless a lookup has already failed or this one fails. */
  lemma LegsExtend(D: Distances, h: string -> int, addrs: seq<string>, loc: string, outbound: bool, i: nat)
    requires i < |addrs|
    ensures var prev, leg := Legs(D, h, addrs[..i], loc, outbound), LegOf(D, h, addrs[i], loc, outbound);
            Legs(D, h, addrs[..i + 1], loc, outbound) ==
              if prev.Err? then prev else if leg.Err? then Err(leg.error) else Ok(prev.value + [leg.value])
  {
    assert addrs[..i + 1][..i] == addrs[..i];
  }

  /** Once a lookup fails, the scan fails with its error however many addresses follow. */
  lemma {:induction false} LegsErrSticky(D: Distances, h: string -> int, addrs: seq<string>, loc: string, outbound: bool, i: nat)
    requires i <= |addrs| && Legs(D, h, addrs[..i], loc, outbound).Err?
    ensures Legs(D, h, addrs, loc, outbound) == Legs(D, h, addrs[..i], loc, outbound)
    decreases |addrs| - i
  {
    if i < |addrs| {
      LegsExtend(D, h, addrs, loc, outbound, i);
      LegsErrSticky(D, h, addrs, loc, outbound, i + 1);
    } else {
      assert addrs[..i] == addrs;
    }
  }

  /**
   * The scan of _package_nearest_to_location over the packages' addresses
   * addrs: None when there is none, else the place of the first address no
   * other is strictly nearer than.
   */
  function NearestIn(D: Distances, h: string -> int, addrs: seq<string>, loc: string, outbound: bool)
    : (r: Result<Option<nat>, Error>)
    ensures r.Err? <==> Legs(D, h, addrs, loc, outbound).Err?
    ensures r.Err? ==> r.error == Legs(D, h, addrs, loc, outbound).error
    ensures r.Ok? ==> (r.value.None? <==> addrs == [])
    ensures r.Ok? && r.value.Some? ==> r.value.value < |addrs|
  {
    match Legs(D, h, addrs, loc, outbound)
    case Err(e) => Err(e)
    case Ok(ds) => if ds == [] then Ok(None) else Ok(Some(FirstMin(ds)))
  }

  /** The package NearestIn picks among ps, rather than its place. */
  function NearestPackage(D: Distances, h: string -> int, ps: seq<Package>, loc: string, outbound: bool)
    : (r: Result<Option<Package>, Error>)
    reads ps`addressZip
    ensures r.Ok? ==> (r.value.None? <==> ps == [])
    ensures r.Ok? && r.value.Some? ==> r.value.value in ps
    ensures r.Err? ==> r.error in {UnknownVertex, MissingDistance}
  {
    match NearestIn(D, h, Addresses(ps), loc, outbound)
    case Err(e) => Err(e)
    case Ok(None) => Ok(None)
    case Ok(Some(i)) => Ok(Some(ps[i]))
  }

  /**
   * The nearest place is found exactly when every leg is known; its leg is
   * then strictly shorter than every leg before it and no longer than any
   * after it.
   */
  lemma NearestIsFirstNearest(D: Distances, h: string -> int, addrs: seq<string>, loc: string, outbound: bool)
    ensures NearestIn(D, h, addrs, loc, outbound).Ok? <==>
              forall j :: 0 <= j < |addrs| ==> LegOf(D, h, addrs[j], loc, outbound).Ok?
    ensures var r := NearestIn(D, h, addrs, loc, outbound);
            r.Ok? && r.value.Some? ==>
              var i := r.value.value;
              var d := LegOf(D, h, addrs[i], loc, outbound).value;
              (forall j :: 0 <= j < i ==> d < LegOf(D, h, addrs[j], loc, outbound).value) &&
              (forall j :: i < j < |addrs| ==> d <= LegOf(D, h, addrs[j], loc, outbound).value)
  {
    LegsMeaning(D, h, addrs, loc, outbound);
  }

  /** The smallest value is the one found, whatever place it is found at. */
  lemma FirstMinIsMinimum(ds: seq<real>, j: nat)
    requires ds != [] && j < |ds|
    ensures ds[FirstMin(ds)] <= ds[j]
    ensures ds[j] == ds[FirstMin(ds)] ==> FirstMin(ds) <= j
  {
  }

  // ---------------------------------------------------------------------------
  // The order the trucks are loaded in
  // ---------------------------------------------------------------------------

  /**
   * A truck with the key list.sort computes for it (its mileage, read once
   * before the sort starts).
   */
  type Keyed = (real, Truck)

  /** Keys that never decrease along ks. */
  predicate Ascending(ks: seq<Keyed>) {
    forall i, j :: 0 <= i < j < |ks| ==> ks[i].0 <= ks[j].0
  }

  /** Where x goes in ks: after every entry whose key is not above x's. */
  function Place(x: Keyed, ks: seq<Keyed>): (k: nat)
    ensures k <= |ks|
    ensures k > 0 ==> ks[k - 1].0 <= x.0
    ensures forall j :: k <= j < |ks| ==> x.0 < ks[j].0
  {
    if ks == [] || ks[|ks| - 1].0 <= x.0 then |ks|
    else Place(x, ks[..|ks| - 1])
  }

  /** ks with x put in its place. */
  function Insert(x: Keyed, ks: seq<Keyed>): (r: seq<Keyed>)
    ensures multiset(r) == multiset(ks) + multiset{x}
  {
    var k := Place(x, ks);
    assert ks == ks[..k] + ks[k..];
    ks[..k] + [x] + ks[k..]
  }

  /**
   * list.sort(key=get_mileage): a stable sort on the keys, stated as the
   * insertion of each entry in turn.
   */
  function Sort(ks: seq<Keyed>): (r: seq<Keyed>)
    ensures multiset(r) == multiset(ks)
  {
    if ks == [] then []
    else
      var n := |ks| - 1;
      assert ks == ks[..n] + [ks[n]];
      Insert(ks[n], Sort(ks[..n]))
  }

  /** Inserting into an ascending list keeps it ascending. */
  lemma InsertAscending(x: Keyed, ks: seq<Keyed>)
    requires Ascending(ks)
    ensures Ascending(Insert(x, ks))
  {
    var k := Place(x, ks);
    var r := Insert(x, ks);
    forall i, j | 0 <= i < j < |r| ensures r[i].0 <= r[j].0 {
      if j < k || i > k {
      } else if i < k && j == k {
        assert ks[i].0 <= ks[k - 1].0;
      } else if i < k {
        assert ks[i].0 <= ks[j - 1].0;
      }
    }
  }

  /** The result of the sort is ascending. */
  lemma {:induction false} SortAscending(ks: seq<Keyed>)
    ensures Ascending(Sort(ks))
  {
    if ks != [] {
      var n := |ks| - 1;
      SortAscending(ks[..n]);
      InsertAscending(ks[n], Sort(ks[..n]));
    }
  }

  /** An entry whose key is not below any key of ks goes at its end. */
  lemma InsertLast(x: Keyed, ks: seq<Keyed>)
    requires forall i :: 0 <= i < |ks| ==> ks[i].0 <= x.0
    ensures Insert(x, ks) == ks + [x]
  {
    assert Place(x, ks) == |ks|;
    assert ks[|ks|..] == [];
  }

  /** An ascending list comes back as it is: entries with equal keys are never reordered. */
  lemma {:induction false} SortKeepsAscending(ks: seq<Keyed>)
    requires Ascending(ks)
    ensures Sort(ks) == ks
  {
    if ks != [] {
      var n := |ks| - 1;
      assert Ascending(ks[..n]);
      SortKeepsAscending(ks[..n]);
      InsertLast(ks[n], ks[..n]);
      assert ks[..n] + [ks[n]] == ks;
    }
  }

  /** The trucks with their mileages, in list order. */
  function MileageKeys(ts: seq<Truck>): (ks: seq<Keyed>)
    reads ts
    ensures |ks| == |ts| && forall i :: 0 <= i < |ts| ==> ks[i] == (ts[i].mileage, ts[i])
  {
    seq(|ts|, i requires 0 <= i < |ts| reads ts => (ts[i].mileage, ts[i]))
  }

  /** The trucks of keyed entries, in order. */
  function TrucksOf(ks: seq<Keyed>): (ts: seq<Truck>)
    ensures |ts| == |ks| && forall i :: 0 <= i < |ks| ==> ts[i] == ks[i].1
  {
    seq(|ks|, i requires 0 <= i < |ks| => ks[i].1)
  }

  /**
   * Sorting the trucks by their mileage keys: the same trucks, as many,
   * now in order of mileage.
   */
  lemma SortedTrucks(ts: seq<Truck>)
    ensures var r := TrucksOf(Sort(MileageKeys(ts)));
            |r| == |ts| && (forall t :: t in r <==> t in ts) &&
            forall i, j :: 0 <= i < j < |r| ==> r[i].mileage <= r[j].mileage
  {
    var ks := MileageKeys(ts);
    var sorted := Sort(ks);
    SortAscending(ks);
    assert |sorted| == |multiset(sorted)| == |multiset(ks)| == |ks|;
    forall i | 0 <= i < |sorted| ensures sorted[i].0 == sorted[i].1.mileage {
      assert sorted[i] in multiset(ks);
    }
    forall t ensures t in TrucksOf(sorted) <==> t in ts {
      if t in ts {
        var i :| 0 <= i < |ts| && ts[i] == t;
        assert ks[i] in multiset(sorted);
      }
      if t in TrucksOf(sorted) {
        var i :| 0 <= i < |sorted| && sorted[i].1 == t;
        assert sorted[i] in multiset(ks);
      }
    }
  }

  /** The trucks of two lists of entries put end to end. */
  lemma TrucksOfAppend(a: seq<Keyed>, b: seq<Keyed>)
    ensures TrucksOf(a + b) == TrucksOf(a) + TrucksOf(b)
  {
  }

  /** Inserting an entry adds its truck and moves no other. */
  lemma InsertKeepsTrucks(x: Keyed, s: seq<Keyed>)
    ensures multiset(TrucksOf(Insert(x, s))) == multiset(TrucksOf(s)) + multiset{x.1}
  {
    var k := Place(x, s);
    InsertSplits(x, s, k);
  }

  /** The trucks of s with x put at position k. */
  lemma InsertSplits(x: Keyed, s: seq<Keyed>, k: nat)
    requires k <= |s|
    ensures multiset(TrucksOf(s[..k] + [x] + s[k..])) == multiset(TrucksOf(s)) + multiset{x.1}
  {
    var front, back := s[..k], s[k..];
    TrucksOfAppend(front + [x], back);
    TrucksOfAppend(front, [x]);
    assert front + back == s;
    TrucksOfAppend(front, back);
  }

  /** The trucks of ks are those of all but its last entry, and that entry's. */
  lemma TrucksOfLast(ks: seq<Keyed>)
    requires ks != []
    ensures multiset(TrucksOf(ks)) == multiset(TrucksOf(ks[..|ks| - 1])) + multiset{ks[|ks| - 1].1}
  {
    var n := |ks| - 1;
    assert ks[..n] + [ks[n]] == ks;
    TrucksOfAppend(ks[..n], [ks[n]]);
  }

  /** Sorting rearranges the trucks and loses or adds none. */
  lemma {:induction false} SortKeepsTrucks(ks: seq<Keyed>)
    ensures multiset(TrucksOf(Sort(ks))) == multiset(TrucksOf(ks))
  {
    if ks != [] {
      var n := |ks| - 1;
      SortKeepsTrucks(ks[..n]);
      InsertKeepsTrucks(ks[n], Sort(ks[..n]));
      TrucksOfLast(ks);
    }
  }

  /** The trucks as sorted by mileage: the same trucks, as many times each, in order of mileage. */
  function ByMileage(ts: seq<Truck>): (r: seq<Truck>)
    reads ts
    ensures |r| == |ts| && multiset(r) == multiset(ts)
    ensures (forall i :: 0 <= i < |r| ==> r[i] in ts) && (forall i :: 0 <= i < |ts| ==> ts[i] in r)
    ensures forall i, j :: 0 <= i < j < |r| ==> r[i].mileage <= r[j].mileage
  {
    SortedTrucks(ts);
    SortKeepsTrucks(MileageKeys(ts));
    assert TrucksOf(MileageKeys(ts)) == ts;
    TrucksOf(Sort(MileageKeys(ts)))
  }

  /** No truck occurs twice in ts. */
  predicate TrucksApart(ts: seq<Truck>) {
    forall j, k :: 0 <= j < k < |ts| ==> ts[j] != ts[k]
  }

  /** In a list where no truck occurs twice, each truck occurs at most once. */
  lemma {:induction false} OnceEach(ts: seq<Truck>)
    requires TrucksApart(ts)
    ensures forall t :: multiset(ts)[t] <= 1
  {
    if ts != [] {
      var n := |ts| - 1;
      OnceEach(ts[..n]);
      assert ts == ts[..n] + [ts[n]];
      assert ts[n] !in ts[..n];
    }
  }

  /** A rearrangement of a list where no truck occurs twice has no truck twice either. */
  lemma ApartKept(a: seq<Truck>, b: seq<Truck>)
    requires multiset(a) == multiset(b) && TrucksApart(b)
    ensures TrucksApart(a)
  {
    OnceEach(b);
    forall j, k | 0 <= j < k < |a| ensures a[j] != a[k] {
      assert a == a[..k] + [a[k]] + a[k + 1..];
      assert multiset(a) == multiset(a[..k]) + multiset{a[k]} + multiset(a[k + 1..]);
      assert a[..k][j] == a[j];
      assert multiset(a)[a[k]] >= multiset(a[..k])[a[k]] + 1;
    }
  }

  // ---------------------------------------------------------------------------
  // The group of a package
  // ---------------------------------------------------------------------------

  /** Starting from acc, the union with the associates of each package of `from`, in turn. */
  function Grow(acc: seq<Package>, from: seq<Package>): (r: seq<Package>)
    reads from`associated
    ensures NoDups(acc) ==> NoDups(r)
    ensures Within(acc, r)
    ensures forall i :: 0 <= i < |from| ==> Within(from[i].associated, r)
    ensures forall k :: 0 <= k < |r| ==>
              r[k] in acc || exists i :: 0 <= i < |from| && r[k] in from[i].associated
    decreases |from|
  {
    if from == [] then acc
    else Grow(AddAll(acc, from[0].associated), from[1..])
  }

  /**
   * The packages that must travel with n: its associates, the associates of
   * each of them (two hops and no further), and n itself.
   */
  function Group(n: Package): (g: seq<Package>)
    reads n`associated, n.associated`associated
  {
    AddOne(Grow(n.associated, n.associated), n)
  }

  /** y is n, one of n's associates, or an associate of one of them. */
  ghost predicate Tied(y: Package, n: Package)
    reads n`associated, n.associated`associated
  {
    y == n || y in n.associated || exists a :: a in n.associated && y in a.associated
  }

  /** Exactly n, its associates and theirs are in the group, each once when n's associates are listed once. */
  lemma GroupMembers(n: Package, y: Package)
    ensures y in Group(n) <==> Tied(y, n)
    ensures NoDups(n.associated) ==> NoDups(Group(n))
  {
  }

  /** A group stays inside any set of packages that holds n and is closed under association. */
  lemma GroupWithin(n: Package, U: set<Package>)
    requires n in U && Closed(U)
    ensures forall y :: y in Group(n) ==> y in U
  {
    forall y | y in Group(n) ensures y in U {
      GroupMembers(n, y);
      if y != n && y !in n.associated {
        var a :| a in n.associated && y in a.associated;
        assert a in U;
      }
    }
  }

  /** The group is never empty: it holds n. */
  lemma GroupHoldsItsPackage(n: Package)
    ensures n in Group(n) && |Group(n)| >= 1
  {
  }

  // ---------------------------------------------------------------------------
  // The wrong-address sweep
  // ---------------------------------------------------------------------------

  /** list.remove: the first occurrence of x leaves. */
  function RemoveFirst(xs: seq<Package>, x: Package): (r: seq<Package>)
    ensures x in xs ==> |r| == |xs| - 1
    ensures x !in xs ==> r == xs
    ensures forall y :: y in r ==> y in xs
  {
    if xs == [] then []
    else if xs[0] == x then xs[1..]
    else [xs[0]] + RemoveFirst(xs[1..], x)
  }

  /**
   * `for p in list: if ready(p): update p; list.remove(p)`: the iterator
   * walks by position while the list shrinks under it, so the element that
   * slides into the freed place is passed over. R holds the packages whose
   * correction is ready; a package updated once is ready no more. The result
   * is the list left behind and the packages updated.
   */
  function SweepFrom(xs: seq<Package>, R: set<Package>, i: nat): (r: (seq<Package>, set<Package>))
    decreases |xs| - i
  {
    if i >= |xs| then (xs, {})
    else
      var p := xs[i];
      if p in R then
        var next := SweepFrom(RemoveFirst(xs, p), R - {p}, i + 1);
        (next.0, next.1 + {p})
      else SweepFrom(xs, R, i + 1)
  }

  /** Only ready packages are updated, and each of them leaves the list. */
  lemma {:induction false} SweepUpdatesReady(xs: seq<Package>, R: set<Package>, i: nat)
    ensures SweepFrom(xs, R, i).1 <= R
    ensures forall y :: y in SweepFrom(xs, R, i).0 ==> y in xs
    ensures |SweepFrom(xs, R, i).0| + |SweepFrom(xs, R, i).1| <= |xs|
    decreases |xs| - i
  {
    if i < |xs| {
      var p := xs[i];
      if p in R {
        SweepUpdatesReady(RemoveFirst(xs, p), R - {p}, i + 1);
        var next := SweepFrom(RemoveFirst(xs, p), R - {p}, i + 1);
        assert p !in next.1;
      } else {
        SweepUpdatesReady(xs, R, i + 1);
      }
    }
  }

  /** Two ready packages in a row: the first is updated and removed, the second is skipped and stays. */
  lemma SweepSkipsNext(a: Package, b: Package)
    requires a != b
    ensures SweepFrom([a, b], {a, b}, 0) == ([b], {a})
  {
    assert RemoveFirst([a, b], a) == [b];
    assert SweepFrom([b], {a, b} - {a}, 1) == ([b], {});
    assert {} + {a} == {a};
  }

  /** A list of which nothing is ready comes back whole. */
  lemma {:induction false} SweepNothingReady(xs: seq<Package>, R: set<Package>, i: nat)
    requires forall y :: y in xs ==> y !in R
    ensures SweepFrom(xs, R, i) == (xs, {})
    decreases |xs| - i
  {
    if i < |xs| {
      SweepNothingReady(xs, R, i + 1);
    }
  }

  // ---------------------------------------------------------------------------
  // What loading the package file builds
  // ---------------------------------------------------------------------------

  /** The ids a row's note asks its package to travel with. */
  function IdsOf(r: PackageRecord): set<int> {
    var note := ClassifyNote(r.notes);
    if note.DeliveredWith? then note.ids else {}
  }

  /** The id of each row, in file order. */
  function RowIds(rows: seq<PackageRecord>): (ids: seq<int>)
    ensures |ids| == |rows| && forall i :: 0 <= i < |rows| ==> ids[i] == rows[i].id
  {
    seq(|rows|, i requires 0 <= i < |rows| => rows[i].id)
  }

  /**
   * Whether the packages of rows i and j end up associated, ids[k] being the
   * id of row k and named[k] the ids its note names: when the later one is
   * read, it is linked to every package read so far (itself included) whose
   * note names its id.
   */
  predicate Linked(ids: seq<int>, named: seq<set<int>>, i: nat, j: nat)
    requires i < |ids| && j < |ids| && i < |named| && j < |named|
  {
    (i <= j && ids[j] in named[i]) || (j <= i && ids[i] in named[j])
  }

  /** Association is symmetric. */
  lemma LinkedSymmetric(ids: seq<int>, named: seq<set<int>>, i: nat, j: nat)
    requires i < |ids| && j < |ids| && i < |named| && j < |named|
    ensures Linked(ids, named, i, j) <==> Linked(ids, named, j, i)
  {
  }

  /** The package table: each id maps to the package put under it last. */
  function ById(ps: seq<Package>): (m: map<int, Package>)
    ensures forall x :: x in m ==> m[x] in ps && m[x].id == x
  {
    if ps == [] then map[] else ById(ps[..|ps| - 1])[ps[|ps| - 1].id := ps[|ps| - 1]]
  }

  /** ps[i] is the table's entry for x, and no later package has id x. */
  predicate LastWithId(ps: seq<Package>, x: int, i: nat)
    requires i < |ps|
  {
    x in ById(ps) && ById(ps)[x] == ps[i] && forall j :: i < j < |ps| ==> ps[j].id != x
  }

  /** An id is in the table exactly when some package has it, and it maps to the last package that has it. */
  lemma {:induction false} ByIdLast(ps: seq<Package>, x: int)
    ensures x in ById(ps) <==> exists i :: 0 <= i < |ps| && ps[i].id == x
    ensures x in ById(ps) ==> exists i :: 0 <= i < |ps| && LastWithId(ps, x, i)
  {
    if ps != [] {
      var n := |ps| - 1;
      var prev := ps[..n];
      ByIdLast(prev, x);
      assert forall i :: 0 <= i < n ==> prev[i] == ps[i];
      if ps[n].id == x {
        assert LastWithId(ps, x, n);
      } else if x in ById(prev) {
        var i :| 0 <= i < n && ById(prev)[x] == prev[i] && forall j :: i < j < n ==> prev[j].id != x;
        assert LastWithId(ps, x, i);
      }
    }
  }

  /** The address each row's package is made with, in file order. */
  function AddressKeys(rows: seq<PackageRecord>): (keys: seq<string>)
    ensures |keys| == |rows| && forall i :: 0 <= i < |rows| ==> keys[i] == AddressZipOf(rows[i])
  {
    seq(|rows|, i requires 0 <= i < |rows| => AddressZipOf(rows[i]))
  }

  /** The ids each row's note names, in file order. */
  function NamedBy(rows: seq<PackageRecord>): (named: seq<set<int>>)
    ensures |named| == |rows| && forall i :: 0 <= i < |rows| ==> named[i] == IdsOf(rows[i])
  {
    seq(|rows|, i requires 0 <= i < |rows| => IdsOf(rows[i]))
  }

  /**
   * The destination table once the packages ps of the first |ps| rows are
   * read, keys[k] being the address of the k-th: each address maps to its
   * packages in the order they were read.
   */
  function ByAddress(ps: seq<Package>, keys: seq<string>): (m: map<string, seq<Package>>)
    requires |ps| <= |keys|
    ensures forall a, i :: a in m && 0 <= i < |m[a]| ==> m[a][i] in ps
  {
    if ps == [] then map[]
    else
      var n := |ps| - 1;
      var m, a := ByAddress(ps[..n], keys), keys[n];
      m[a := (if a in m then m[a] else []) + [ps[n]]]
  }

  /** The packages of ps for address a, in order. */
  function At(ps: seq<Package>, keys: seq<string>, a: string): (r: seq<Package>)
    requires |ps| <= |keys|
    ensures |r| <= |ps|
  {
    if ps == [] then []
    else
      var n := |ps| - 1;
      At(ps[..n], keys, a) + (if keys[n] == a then [ps[n]] else [])
  }

  /** Every address of ps is a key, each listing exactly the packages for it, in order. */
  lemma {:induction false} ByAddressLists(ps: seq<Package>, keys: seq<string>, a: string)
    requires |ps| <= |keys|
    ensures a in ByAddress(ps, keys) <==> At(ps, keys, a) != []
    ensures a in ByAddress(ps, keys) ==> ByAddress(ps, keys)[a] == At(ps, keys, a)
  {
    if ps != [] {
      ByAddressLists(ps[..|ps| - 1], keys, a);
    }
  }

  /** Among distinct packages, the k-th is listed for an address exactly when it is its address. */
  lemma {:induction false} AtMembers(ps: seq<Package>, keys: seq<string>, a: string, k: nat)
    requires |ps| <= |keys| && NoDups(ps) && k < |ps|
    ensures ps[k] in At(ps, keys, a) <==> keys[k] == a
  {
    var n := |ps| - 1;
    var prev := ps[..n];
    assert forall i :: 0 <= i < n ==> prev[i] == ps[i];
    if k < n {
      AtMembers(prev, keys, a, k);
    } else {
      AtWithin(prev, keys, a);
      assert ps[k] !in prev;
    }
  }

  /** A package listed for an address is one of ps. */
  lemma {:induction false} AtWithin(ps: seq<Package>, keys: seq<string>, a: string)
    requires |ps| <= |keys|
    ensures Within(At(ps, keys, a), ps)
  {
    if ps != [] {
      var n := |ps| - 1;
      AtWithin(ps[..n], keys, a);
      assert ps == ps[..n] + [ps[n]];
    }
  }

  /** The packages among ps whose notes name id x (named[k] for the k-th), in the order they were read. */
  function Naming(ps: seq<Package>, named: seq<set<int>>, x: int): (r: seq<Package>)
    requires |ps| <= |named|
    ensures |r| <= |ps|
  {
    if ps == [] then []
    else
      var n := |ps| - 1;
      Naming(ps[..n], named, x) + (if x in named[n] then [ps[n]] else [])
  }

  /** The ids the first n notes name. */
  function NamedIds(named: seq<set<int>>, n: nat): set<int>
    requires n <= |named|
  {
    if n == 0 then {} else NamedIds(named, n - 1) + named[n - 1]
  }

  /**
   * The associated_packages table once the packages ps of the first |ps|
   * rows are read: every id named so far maps to the packages naming it.
   */
  function Associates(ps: seq<Package>, named: seq<set<int>>): map<int, seq<Package>>
    requires |ps| <= |named|
  {
    map x | x in NamedIds(named, |ps|) :: Naming(ps, named, x)
  }

  /** An id no note has named yet is named by no package. */
  lemma {:induction false} NamingOutside(ps: seq<Package>, named: seq<set<int>>, x: int)
    requires |ps| <= |named| && x !in NamedIds(named, |ps|)
    ensures Naming(ps, named, x) == []
  {
    if ps != [] {
      NamingOutside(ps[..|ps| - 1], named, x);
    }
  }

  /** Among distinct packages, the k-th names x exactly when its note does, and those naming x are among ps. */
  lemma {:induction false} NamingMembers(ps: seq<Package>, named: seq<set<int>>, x: int, k: nat)
    requires |ps| <= |named| && NoDups(ps) && k < |ps|
    ensures ps[k] in Naming(ps, named, x) <==> x in named[k]
    ensures Within(Naming(ps, named, x), ps)
  {
    var n := |ps| - 1;
    var prev := ps[..n];
    assert forall i :: 0 <= i < n ==> prev[i] == ps[i];
    if n > 0 {
      NamingMembers(prev, named, x, if k < n then k else 0);
    }
    if k == n {
      assert ps[k] !in prev;
    }
  }

  /**
   * The id loop of one row: the package p joins the entry of every id in S,
   * an id seen for the first time getting a new entry.
   */
  function Registered(m: map<int, seq<Package>>, S: set<int>, p: Package): (r: map<int, seq<Package>>)
    ensures r.Keys == m.Keys + S
    ensures forall x :: x in S ==> r[x] == (if x in m then m[x] else []) + [p]
    ensures forall x :: x in m && x !in S ==> r[x] == m[x]
  {
    map x | x in m.Keys + S :: (if x in m then m[x] else []) + (if x in S then [p] else [])
  }

  /** Reading one more row registers its package under the ids its note names. */
  lemma AssociatesStep(ps: seq<Package>, named: seq<set<int>>, p: Package)
    requires |ps| < |named|
    ensures Associates(ps + [p], named) == Registered(Associates(ps, named), named[|ps|], p)
  {
    var n := |ps|;
    assert (ps + [p])[..n] == ps;
    forall x | x in NamedIds(named, n + 1) && x !in NamedIds(named, n)
      ensures Naming(ps, named, x) == []
    {
      NamingOutside(ps, named, x);
    }
  }

  /** A further id added to those already registered. */
  lemma RegisteredStep(m: map<int, seq<Package>>, D: set<int>, p: Package, x: int)
    requires x !in D
    ensures Registered(m, D + {x}, p) ==
            Registered(m, D, p)[x := (if x in Registered(m, D, p) then Registered(m, D, p)[x] else []) + [p]]
  {
  }

  /** The associations made while the packages ps of the first |ps| rows are read, as Linked says. */
  ghost predicate Links(ps: seq<Package>, ids: seq<int>, named: seq<set<int>>)
    reads ps
    requires |ps| <= |ids| && |ps| <= |named|
  {
    forall a, b :: 0 <= a < |ps| && 0 <= b < |ps| ==> (ps[b] in ps[a].associated <==> Linked(ids, named, a, b))
  }

  /**
   * The package read last, n, is linked to those of ps naming its id:
   * exactly the packages Linked to it.
   */
  lemma NamingLinked(ps: seq<Package>, ids: seq<int>, named: seq<set<int>>, a: nat)
    requires 0 < |ps| <= |ids| && |ps| <= |named| && NoDups(ps) && a < |ps|
    ensures var n := |ps| - 1;
            (ps[a] in Naming(ps, named, ids[n]) <==> Linked(ids, named, a, n)) &&
            (ps[a] in Naming(ps, named, ids[n]) <==> Linked(ids, named, n, a))
  {
    NamingMembers(ps, named, ids[|ps| - 1], a);
  }

  // ---------------------------------------------------------------------------
  // What loading the distance file builds
  // ---------------------------------------------------------------------------

  /** A row of the distance file: the name, the address with its zip, and the distances to the rows so far. */
  datatype DistanceRow = DistanceRow(name: string, addressZip: string, distances: seq<real>)

  /** The location a row stands for. */
  function LocationOf(row: DistanceRow): Location {
    NewLocation(row.addressZip, row.name)
  }

  /** The vertex key of a row's location. */
  function RowKey(h: string -> int, row: DistanceRow): int {
    Hash(h, LocationOf(row))
  }

  /** The vertex keys of rows, in order. */
  function RowKeys(h: string -> int, rows: seq<DistanceRow>): (ks: seq<int>)
    ensures |ks| == |rows| && forall i :: 0 <= i < |rows| ==> ks[i] == RowKey(h, rows[i])
  {
    seq(|rows|, i requires 0 <= i < |rows| => RowKey(h, rows[i]))
  }

  /** The distance lists of rows, in order. */
  function Table(rows: seq<DistanceRow>): (dss: seq<seq<real>>)
    ensures |dss| == |rows| && forall i :: 0 <= i < |rows| ==> dss[i] == rows[i].distances
  {
    seq(|rows|, i requires 0 <= i < |rows| => rows[i].distances)
  }

  /** The first m edges from vertex k: the j-th to ks[j] weighing ds[j]. */
  function EdgesFrom(D: Distances, k: int, ks: seq<int>, ds: seq<real>, m: nat): (r: Distances)
    requires m <= |ds| && m <= |ks| && k in D && forall j :: 0 <= j < m ==> ks[j] in D
    ensures r.Keys == D.Keys
  {
    if m == 0 then D else WithEdge(EdgesFrom(D, k, ks, ds, m - 1), k, ks[m - 1], ds[m - 1])
  }

  /** Each list has no more distances than there are rows up to and including its own. */
  predicate Fits(dss: seq<seq<real>>) {
    forall i :: 0 <= i < |dss| ==> |dss[i]| <= i + 1
  }

  /** A file fits when all but its last row fit and the last row does. */
  lemma FitsPrefix(dss: seq<seq<real>>)
    requires dss != []
    ensures Fits(dss) <==> Fits(dss[..|dss| - 1]) && |dss[|dss| - 1]| <= |dss|
  {
    var n := |dss| - 1;
    assert forall i :: 0 <= i < n ==> dss[..n][i] == dss[i];
  }

  /**
   * The graph _load_distances builds from the rows' vertex keys ks and
   * distance lists dss: each row adds its vertex afresh, then an edge to the
   * vertex of every earlier row, and to itself, in file order. A row with
   * more distances than that raises IndexError.
   */
  function DistancesOf(ks: seq<int>, dss: seq<seq<real>>): (r: Result<Distances, Error>)
    requires |ks| == |dss|
    ensures r.Ok? <==> Fits(dss)
    ensures r.Err? ==> r.error == IndexOutOfRange
    ensures r.Ok? ==> forall i :: 0 <= i < |ks| ==> ks[i] in r.value
  {
    if ks == [] then Ok(map[])
    else
      var n := |ks| - 1;
      var prev := DistancesOf(ks[..n], dss[..n]);
      FitsPrefix(dss);
      if prev.Err? then Err(prev.error)
      else if |dss[n]| > n + 1 then Err(IndexOutOfRange)
      else
        var D := prev.value[ks[n] := map[]];
        assert forall i :: 0 <= i < n ==> ks[..n][i] == ks[i];
        Ok(EdgesFrom(D, ks[n], ks, dss[n], |dss[n]|))
  }

  /**
   * One more row of a fitting prefix: the graph of the first i + 1 rows is
   * that of the first i with row i's vertex reset and its edges added.
   */
  lemma Extended(ks: seq<int>, dss: seq<seq<real>>, i: nat, D: Distances)
    requires |ks| == |dss| && i < |ks| && Fits(dss[..i]) && |dss[i]| <= i + 1
    requires D == DistancesOf(ks[..i], dss[..i]).value
    ensures Fits(dss[..i + 1])
    ensures ks[i] in D[ks[i] := map[]] && forall j :: 0 <= j <= i ==> ks[j] in D[ks[i] := map[]]
    ensures DistancesOf(ks[..i + 1], dss[..i + 1]) ==
              Ok(EdgesFrom(D[ks[i] := map[]], ks[i], ks[..i + 1], dss[i], |dss[i]|))
  {
    var ks', dss' := ks[..i + 1], dss[..i + 1];
    assert ks'[..i] == ks[..i] && dss'[..i] == dss[..i];
    FitsPrefix(dss');
    assert dss'[i] == dss[i];
    DistancesStep(ks', dss');
  }

  /** The graph of the first i rows has a vertex for each of them. */
  lemma DistancesPrefixKeys(ks: seq<int>, dss: seq<seq<real>>, i: nat)
    requires |ks| == |dss| && i < |ks| && Fits(dss[..i])
    ensures forall j :: 0 <= j < i ==> ks[j] in DistancesOf(ks[..i], dss[..i]).value
  {
    assert forall j :: 0 <= j < i ==> ks[..i][j] == ks[j];
  }

  /** A row with too many distances makes every longer prefix fail to fit. */
  lemma FitsPrefixFails(dss: seq<seq<real>>, i: nat)
    requires i < |dss| && |dss[i]| > i + 1
    ensures !Fits(dss)
  {
  }


  predicate Unique(ks: seq<int>) {
    forall a, b :: 0 <= a < b < |ks| ==> ks[a] != ks[b]
  }

  /** Edges from k change no distance between two vertices other than k. */
  lemma {:induction false} EdgesFromFrame(D: Distances, k: int, ks: seq<int>, ds: seq<real>, m: nat, x: int, y: int)
    requires m <= |ds| && m <= |ks| && k in D && forall j :: 0 <= j < m ==> ks[j] in D
    requires x != k && y != k
    ensures DistanceIn(EdgesFrom(D, k, ks, ds, m), x, y) == DistanceIn(D, x, y)
  {
    if m > 0 {
      EdgesFromFrame(D, k, ks, ds, m - 1, x, y);
      EdgeFrame(EdgesFrom(D, k, ks, ds, m - 1), k, ks[m - 1], ds[m - 1], x, y);
    }
  }

  /** Among edges to different vertices, each reads back its own distance both ways. */
  lemma {:induction false} EdgesFromHit(D: Distances, k: int, ks: seq<int>, ds: seq<real>, m: nat, j: nat)
    requires m <= |ds| && m <= |ks| && k in D && forall j :: 0 <= j < m ==> ks[j] in D
    requires Unique(ks) && j < m
    ensures DistanceIn(EdgesFrom(D, k, ks, ds, m), k, ks[j]) == Ok(Some(ds[j]))
    ensures DistanceIn(EdgesFrom(D, k, ks, ds, m), ks[j], k) == Ok(Some(ds[j]))
  {
    var E := EdgesFrom(D, k, ks, ds, m - 1);
    if j == m - 1 {
      EdgeReadsBack(E, k, ks[j], ds[j]);
    } else {
      EdgesFromHit(D, k, ks, ds, m - 1, j);
      EdgeFrame(E, k, ks[m - 1], ds[m - 1], k, ks[j]);
      EdgeFrame(E, k, ks[m - 1], ds[m - 1], ks[j], k);
    }
  }

  /** The graph of a fitting file is that of all rows but the last, extended by the last row. */
  lemma DistancesStep(ks: seq<int>, dss: seq<seq<real>>)
    requires |ks| == |dss| && Fits(dss) && ks != []
    ensures Fits(dss[..|ks| - 1])
    ensures var n := |ks| - 1;
            var prev := DistancesOf(ks[..n], dss[..n]).value;
            ks[n] in prev[ks[n] := map[]] &&
            (forall j :: 0 <= j < |dss[n]| ==> ks[j] in prev[ks[n] := map[]]) &&
            DistancesOf(ks, dss) == Ok(EdgesFrom(prev[ks[n] := map[]], ks[n], ks, dss[n], |dss[n]|))
  {
    var n := |ks| - 1;
    FitsPrefix(dss);
    var prev := DistancesOf(ks[..n], dss[..n]);
    assert prev.Ok? && |dss[n]| <= n + 1;
    assert forall a :: 0 <= a < n ==> ks[..n][a] == ks[a];
    assert forall a :: 0 <= a <= n ==> ks[a] in prev.value[ks[n] := map[]];
  }

  /**
   * When the rows name different vertices and fit, the graph holds the
   * distance of row i's j-th entry between the vertices of rows i and j, in
   * both directions: no later row overwrites it.
   */
  lemma {:induction false} DistancesReadBack(ks: seq<int>, dss: seq<seq<real>>, i: nat, j: nat)
    requires |ks| == |dss| && Fits(dss) && Unique(ks)
    requires i < |ks| && j < |dss[i]|
    ensures j <= i
    ensures DistanceIn(DistancesOf(ks, dss).value, ks[i], ks[j]) == Ok(Some(dss[i][j]))
    ensures DistanceIn(DistancesOf(ks, dss).value, ks[j], ks[i]) == Ok(Some(dss[i][j]))
    decreases |ks|, 1
  {
    var n := |ks| - 1;
    DistancesStep(ks, dss);
    var prev := DistancesOf(ks[..n], dss[..n]).value;
    var D := prev[ks[n] := map[]];
    if i == n {
      EdgesFromHit(D, ks[n], ks, dss[n], |dss[n]|, j);
    } else {
      ReadBackEarlier(ks, dss, i, j);
    }
  }

  /** The step of DistancesReadBack for a row before the last: the last row leaves its edges alone. */
  lemma {:induction false} ReadBackEarlier(ks: seq<int>, dss: seq<seq<real>>, i: nat, j: nat)
    requires |ks| == |dss| && Fits(dss) && Unique(ks)
    requires i < |ks| - 1 && j < |dss[i]|
    ensures DistanceIn(DistancesOf(ks, dss).value, ks[i], ks[j]) == Ok(Some(dss[i][j]))
    ensures DistanceIn(DistancesOf(ks, dss).value, ks[j], ks[i]) == Ok(Some(dss[i][j]))
    decreases |ks|, 0
  {
    var n := |ks| - 1;
    DistancesStep(ks, dss);
    var prev := DistancesOf(ks[..n], dss[..n]).value;
    var D := prev[ks[n] := map[]];
    assert ks[..n][i] == ks[i] && dss[..n][i] == dss[i];
    assert j <= i;
    assert ks[..n][j] == ks[j];
    DistancesReadBack(ks[..n], dss[..n], i, j);
    VertexReset(prev, ks[n], ks[i], ks[j]);
    VertexReset(prev, ks[n], ks[j], ks[i]);
    EdgesFromFrame(D, ks[n], ks, dss[n], |dss[n]|, ks[i], ks[j]);
    EdgesFromFrame(D, ks[n], ks, dss[n], |dss[n]|, ks[j], ks[i]);
  }
}
