/**
 * The simulator: it loads the packages and the distance table, then loads
 * and dispatches the trucks in rounds until every package is delivered.
 */
module Simulation {
  import opened Wrappers
  import opened HashTables
  import opened Locations
  import opened Graphs
  import opened Packages
  import opened Trucks
  import opened Dispatch
  import opened Loading

  /** How many of the stored packages are not delivered, over the items of the package table. */
  function Undelivered(items: seq<(int, Package)>): (n: nat)
    reads set j | 0 <= j < |items| :: items[j].1
  {
    if items == [] then 0
    else
      var last := items[|items| - 1];
      Undelivered(items[..|items| - 1]) + (if last.1.IsDelivered() then 0 else 1)
  }

  /** The counting loop of get_remaining over the table's items. */
  method CountUndelivered(all: seq<(int, Package)>) returns (total: nat)
    ensures total == Undelivered(all)
  {
    total := 0;
    for i := 0 to |all|
      invariant total == Undelivered(all[..i])
    {
      assert all[..i + 1][..i] == all[..i];
      if !all[i].1.IsDelivered() {
        total := total + 1;
      }
    }
    assert all[..|all|] == all;
  }

  /** The count never exceeds the number of items, and it is zero exactly when every item is delivered. */
  lemma {:induction false} UndeliveredBounds(items: seq<(int, Package)>)
    ensures Undelivered(items) <= |items|
    ensures Undelivered(items) == 0 <==> forall j :: 0 <= j < |items| ==> items[j].1.IsDelivered()
  {
    if items != [] {
      var n := |items| - 1;
      UndeliveredBounds(items[..n]);
      assert forall j :: 0 <= j < n ==> items[..n][j] == items[j];
    }
  }

  /** Taking a non-empty part out of a finite set leaves fewer elements. */
  lemma RemovedFewer<T>(U: set<T>, D: set<T>)
    requires D <= U && D != {}
    ensures |U - D| < |U|
  {
    var x :| x in D;
    assert U - D <= U - {x};
    SubsetCard(U - D, U - {x});
  }

  /** The packages the items hold. */
  function ItemPackages(items: seq<(int, Package)>): set<Package> {
    set j | 0 <= j < |items| :: items[j].1
  }

  /**
   * Any set of undelivered packages held by the items is no larger than the
   * count get_remaining makes over them (a package may be held twice).
   */
  lemma {:induction false} UndeliveredCovers(items: seq<(int, Package)>, U: set<Package>)
    requires forall p :: p in U ==> p in ItemPackages(items) && p.status != Delivered
    ensures |U| <= Undelivered(items)
  {
    if items != [] {
      var n := |items| - 1;
      var last := items[n].1;
      var U' := U - {last};
      forall p | p in U'
        ensures p in ItemPackages(items[..n])
      {
        var j :| 0 <= j < |items| && items[j].1 == p;
        assert j < n && items[..n][j] == items[j];
      }
      UndeliveredCovers(items[..n], U');
    }
  }

  /**
   * The group built in _deliver_urgent_packages for the nearest package n:
   * its associates, joined by the associates of each of them in turn, then
   * n itself. Where n has no associates Python adds n to n's own associated
   * set and the inner loop discards it again before anything reads it; the
   * model builds the same one-element group as a new list.
   */
  method GroupOf(n: Package) returns (g: seq<Package>)
    ensures g == Group(n)
  {
    var from := n.associated;
    g := from;
    for i := 0 to |from|
      invariant Grow(g, from[i..]) == Grow(from, from)
    {
      assert from[i..][1..] == from[i + 1..];
      g := AddAll(g, from[i].associated);
    }
    assert from[|from|..] == [];
    g := AddOne(g, n);
  }

  /** The packages of the items still waiting at the hub, in table order. */
  function Waiting(items: seq<(int, Package)>): (r: seq<Package>)
    reads set j | 0 <= j < |items| :: items[j].1
  {
    if items == [] then []
    else
      var last := items[|items| - 1].1;
      Waiting(items[..|items| - 1]) + (if last.AtTheHubNow() then [last] else [])
  }

  /** A package is listed exactly when it is an item waiting at the hub; none is listed twice when no item repeats. */
  lemma {:induction false} WaitingMembers(items: seq<(int, Package)>)
    ensures AllAtHub(Waiting(items))
    ensures forall p :: p in Waiting(items) <==> p.status == AtTheHub && exists j :: 0 <= j < |items| && items[j].1 == p
    ensures (forall j, k :: 0 <= j < k < |items| ==> items[j].1 != items[k].1) ==> NoDups(Waiting(items))
  {
    if items != [] {
      var n := |items| - 1;
      WaitingMembers(items[..n]);
      assert forall j :: 0 <= j < n ==> items[..n][j] == items[j];
    }
  }

  /** Every waiting package is held by one of the items. */
  lemma {:induction false} WaitingListed(items: seq<(int, Package)>)
    ensures forall p :: p in Waiting(items) ==> p in ItemPackages(items)
  {
    if items != [] {
      var n := |items| - 1;
      WaitingListed(items[..n]);
      forall p | p in Waiting(items[..n])
        ensures p in ItemPackages(items)
      {
        var j :| 0 <= j < n && items[..n][j].1 == p;
        assert items[j].1 == p;
      }
      assert items[n].1 in ItemPackages(items);
    }
  }

  /** The waiting packages stay inside any set that holds every item's package. */
  lemma {:induction false} WaitingWithin(items: seq<(int, Package)>, U: set<Package>)
    requires forall k :: 0 <= k < |items| ==> items[k].1 in U
    ensures forall j :: 0 <= j < |Waiting(items)| ==> Waiting(items)[j] in U
  {
    if items != [] {
      WaitingWithin(items[..|items| - 1], U);
    }
  }

  /** The packages of the items whose address is known to be wrong, in table order. */
  function Misaddressed(items: seq<(int, Package)>): (r: seq<Package>)
    reads set j | 0 <= j < |items| :: items[j].1
  {
    if items == [] then []
    else
      var last := items[|items| - 1].1;
      Misaddressed(items[..|items| - 1]) + (if last.wrongAddress then [last] else [])
  }

  /** A package is listed exactly when it is an item with a wrong address. */
  lemma {:induction false} MisaddressedMembers(items: seq<(int, Package)>)
    ensures forall p :: p in Misaddressed(items) <==> p.wrongAddress && exists j :: 0 <= j < |items| && items[j].1 == p
  {
    if items != [] {
      var n := |items| - 1;
      MisaddressedMembers(items[..n]);
      assert forall j :: 0 <= j < n ==> items[..n][j] == items[j];
    }
  }

  /** The packages of xs whose corrected address has arrived by time. */
  ghost function ReadyIn(xs: seq<Package>, time: real): set<Package>
    reads xs
  {
    set p | p in xs && p.CorrectAddressAvailable(time)
  }

  /**
   * The wrong-address sweep of _transport_packages after a truck's trip,
   * at the truck's clock time: each package of the list whose corrected
   * address has arrived gets it and is removed from the list while the list
   * is being iterated, so the package that slides into its place is not
   * looked at. updated is the set of packages corrected; the others are
   * left alone.
   */
  method SweepWrongAddresses(xs: seq<Package>, time: real) returns (xs': seq<Package>, ghost updated: set<Package>)
    modifies xs
    ensures (xs', updated) == SweepFrom(xs, old(ReadyIn(xs, time)), 0)
    ensures forall p :: p in xs && p in updated ==>
              !p.wrongAddress && p.addressZip == CorrectedAddressZip &&
              p.status == old(p.status) && p.associated == old(p.associated)
    ensures forall p :: p in xs && p !in updated ==> unchanged(p)
  {
    ghost var R := ReadyIn(xs, time);
    ghost var ready := R;
    xs', updated := xs, {};
    var i := 0;
    while i < |xs'|
      invariant forall p :: p in xs' ==> p in xs
      invariant forall p :: p in xs ==> (p in ready <==> p.CorrectAddressAvailable(time))
      invariant updated <= R
      invariant SweepFrom(xs', ready, i).0 == SweepFrom(xs, R, 0).0
      invariant SweepFrom(xs', ready, i).1 + updated == SweepFrom(xs, R, 0).1
      invariant forall p :: p in xs && p in updated ==>
                  !p.wrongAddress && p.addressZip == CorrectedAddressZip &&
                  p.status == old(p.status) && p.associated == old(p.associated)
      invariant forall p :: p in xs && p !in updated ==> unchanged(p)
      decreases |xs'| - i
    {
      var p := xs'[i];
      if p.CorrectAddressAvailable(time) {
        p.UpdateAddress();
        xs' := RemoveFirst(xs', p);
        ready, updated := ready - {p}, updated + {p};
      }
      i := i + 1;
    }
  }

  /** Every package of L has been loaded. */
  ghost predicate AllEnRoute(L: set<Package>)
    reads L
  {
    forall p :: p in L ==> p.status == EnRoute
  }

  /** Every package of u is still waiting at the hub. */
  ghost predicate AllAtHub(u: seq<Package>)
    reads u
  {
    forall i :: 0 <= i < |u| ==> u[i].status == AtTheHub
  }

  /** Every package of u0 that has left u has been loaded. */
  ghost predicate Loaded(u0: seq<Package>, u: seq<Package>)
    reads u0
  {
    forall i :: 0 <= i < |u0| && u0[i] !in u ==> u0[i].status == EnRoute
  }

  /**
   * A package's status changes, if at all, only from AtTheHub to EnRoute: no
   * package of U comes back to the hub or is delivered.
   */
  twostate predicate OnlyLoaded(U: set<Package>)
    reads U
  {
    forall p :: p in U ==> p.status == old(p.status) || (old(p.status) == AtTheHub && p.status == EnRoute)
  }

  /** Every package of U whose status has changed is on truck t. */
  twostate predicate Boarded(t: Truck, U: set<Package>)
    reads t, U
  {
    forall p :: p in U && p.status != old(p.status) ==> p in t.packages
  }

  /** p is listed for some address in the destinations table. */
  ghost predicate Listed(p: Package, dest: HashTable<string, seq<Package>>)
    reads dest
  {
    exists a :: a in dest.Contents && p in dest.Contents[a]
  }

  /** p passes is_available's own checks for truck t and is listed for an address. */
  ghost predicate Ready(p: Package, t: Truck, dest: HashTable<string, seq<Package>>)
    reads p, t, dest
  {
    p.Eligible(t.id, t.Time()) && Listed(p, dest)
  }

  /** The members of the groups of the packages of u. */
  ghost function Members(u: seq<Package>): (m: set<Package>)
    reads u`associated, (set n, a | n in u && a in n.associated :: a)`associated
    ensures forall n, y :: n in u && y in Group(n) ==> y in m
  {
    set n, y | n in u && y in Group(n) :: y
  }

  /** Every package of U in the group of a package of u lies in M. */
  ghost predicate TiedWithin(u: seq<Package>, U: set<Package>, M: set<Package>)
    reads u`associated, (set n, a | n in u && a in n.associated :: a)`associated
  {
    forall n, y :: n in u && y in U && y in Group(n) ==> y in M
  }

  /** Every package of U that is Ready for t lies in R. */
  ghost predicate ReadyWithin(t: Truck, U: set<Package>, dest: HashTable<string, seq<Package>>, R: set<Package>)
    reads t, U, dest
  {
    forall p :: p in U && Ready(p, t, dest) ==> p in R
  }

  /** The packages of U paired with each truck of ts for which they are Ready. */
  ghost function ReadySet(ts: seq<Truck>, U: set<Package>, dest: HashTable<string, seq<Package>>): (RP: set<(Package, Truck)>)
    reads ts, U, dest
    ensures forall q :: q in RP ==> q.0 in U && q.1 in ts && Ready(q.0, q.1, dest)
    ensures forall p, t :: p in U && t in ts && Ready(p, t, dest) ==> (p, t) in RP
  {
    set p, t | p in U && t in ts && Ready(p, t, dest) :: (p, t)
  }

  /** The cargo of each truck of ts. */
  ghost function Holds(ts: seq<Truck>): (P: seq<seq<Package>>)
    reads ts
    ensures |P| == |ts| && forall j :: 0 <= j < |ts| ==> P[j] == ts[j].packages
  {
    seq(|ts|, j requires 0 <= j < |ts| reads ts => ts[j].packages)
  }

  /** Every package of U that is Ready for a truck t of ts is paired with t in RP. */
  ghost predicate ReadyPairs(ts: seq<Truck>, U: set<Package>, dest: HashTable<string, seq<Package>>,
                             RP: set<(Package, Truck)>)
    reads ts, U, dest
  {
    forall p, t :: p in U && t in ts && Ready(p, t, dest) ==> (p, t) in RP
  }

  /**
   * Each truck ts[j] still starts with its cargo P0[j], and every package
   * after that lies in M or is paired with ts[j] in RP.
   */
  ghost predicate Gained(ts: seq<Truck>, P0: seq<seq<Package>>, M: set<Package>, RP: set<(Package, Truck)>)
    reads ts
  {
    |P0| == |ts| &&
    forall j :: 0 <= j < |ts| ==>
      P0[j] <= ts[j].packages &&
      forall k :: |P0[j]| <= k < |ts[j].packages| ==> ts[j].packages[k] in M || (ts[j].packages[k], ts[j]) in RP
  }

  // ---------------------------------------------------------------------------
  // What the trucks carry and deliver
  // ---------------------------------------------------------------------------

  /** The sizes of the manifests of P, added up. */
  function Sizes(P: seq<seq<Package>>): nat {
    if P == [] then 0 else Sizes(P[..|P| - 1]) + |P[|P| - 1]|
  }

  /** The sum over a longer prefix adds the next manifest. */
  lemma SizesPrefix(P: seq<seq<Package>>, k: nat)
    requires k < |P|
    ensures Sizes(P[..k + 1]) == Sizes(P[..k]) + |P[k]|
  {
    assert P[..k + 1][..k] == P[..k];
  }

  /** Every manifest counts towards the sum. */
  lemma {:induction false} SizesAtLeast(P: seq<seq<Package>>, j: nat)
    requires j < |P|
    ensures |P[j]| <= Sizes(P)
  {
    var n := |P| - 1;
    if j < n {
      assert P[..n][j] == P[j];
      SizesAtLeast(P[..n], j);
    }
  }

  /** Manifests that each grow add up to no less. */
  lemma {:induction false} SizesGrow(P: seq<seq<Package>>, Q: seq<seq<Package>>)
    requires |P| == |Q| && forall j :: 0 <= j < |P| ==> |P[j]| <= |Q[j]|
    ensures Sizes(P) <= Sizes(Q)
  {
    if P != [] {
      var n := |P| - 1;
      assert forall j :: 0 <= j < n ==> P[..n][j] == P[j] && Q[..n][j] == Q[j];
      SizesGrow(P[..n], Q[..n]);
    }
  }

  /** How many packages the trucks of ts hold between them. */
  ghost function ManifestTotal(ts: seq<Truck>): nat
    reads ts
  {
    Sizes(Holds(ts))
  }

  /** Every package the trucks of ts carry lies in S. */
  ghost predicate AboardIn(ts: seq<Truck>, S: set<Package>)
    reads ts
  {
    forall j, i :: 0 <= j < |ts| && 0 <= i < |ts[j].packages| ==> ts[j].packages[i] in S
  }

  /** A manifest where no package occurs twice holds as many packages as it has places. */
  lemma {:induction false} DistinctCard(ps: seq<Package>)
    requires Distinct(ps)
    ensures |set p | p in ps| == |ps|
  {
    if ps != [] {
      var n := |ps| - 1;
      assert Distinct(ps[..n]) by {
        forall j, k | 0 <= j < k < n ensures Apart(ps[..n], j, k) {
          assert Apart(ps, j, k);
        }
      }
      DistinctCard(ps[..n]);
      assert ps[n] !in ps[..n] by {
        forall j | 0 <= j < n ensures ps[..n][j] != ps[n] {
          assert Apart(ps, j, n);
        }
      }
      assert (set p | p in ps) == (set p | p in ps[..n]) + {ps[n]};
    }
  }

  // ---------------------------------------------------------------------------
  // Loading the package file
  // ---------------------------------------------------------------------------

  /** pkg.associated.add(package); package.associated.add(pkg): one turn of the linking loop. */
  method LinkPair(q: Package, p: Package, ghost ps: seq<Package>, ghost ids: seq<int>, ghost named: seq<set<int>>,
                  ghost done: seq<Package>)
    requires 0 < |ps| <= |ids| && |ps| <= |named| && ps[|ps| - 1] == p && NoDups(ps) && q in ps
    requires PartLinks(ps, ids, named, done) && Among(ps)
    modifies q, p
    ensures PartLinks(ps, ids, named, done + [q]) && Among(ps)
    ensures q.Kept() && p.Kept()
  {
    q.Link(p);
    p.Link(q);
    forall a, b | 0 <= a < |ps| && 0 <= b < |ps|
      ensures ps[b] in ps[a].associated <==> LinkedBy(ps, ids, named, done + [q], a, b)
    {
      assert old(ps[b] in ps[a].associated) <==> LinkedBy(ps, ids, named, done, a, b);
      if ps[a] != q && ps[a] != p {
        assert ps[a].associated == old(ps[a].associated);
      }
    }
  }

  /**
   * The linking loop of one row: p and each package of q are associated
   * both ways; nothing else about the packages changes.
   */
  method LinkAll(p: Package, q: seq<Package>, ghost ps: seq<Package>, ghost ids: seq<int>, ghost named: seq<set<int>>,
                 ghost rows: seq<PackageRecord>, ghost others: set<object>)
    requires 0 < |ps| <= |ids| && |ps| <= |named| && |ps| <= |rows| && ps[|ps| - 1] == p && NoDups(ps) && Within(q, ps)
    requires PartLinks(ps, ids, named, []) && Among(ps) && ParsedAll(rows, ps)
    requires forall k :: 0 <= k < |ps| ==> ps[k] !in others
    modifies ps
    ensures PartLinks(ps, ids, named, q) && Among(ps) && ParsedAll(rows, ps) && unchanged(others)
  {
    for m := 0 to |q|
      invariant PartLinks(ps, ids, named, q[..m]) && Among(ps) && ParsedAll(rows, ps) && unchanged(others)
    {
      label Before:
      LinkPair(q[m], p, ps, ids, named, q[..m]);
      forall k | 0 <= k < |ps| ensures ps[k].Parsed(rows[k]) {
        if ps[k] == q[m] || ps[k] == p {
          ps[k].KeptParsed@Before(rows[k]);
        }
      }
      SliceStep(q, m);
    }
    assert q[..|q|] == q;
  }

  /**
   * The id loop of one row: p joins the set of every id in ids, an id met
   * for the first time getting a new set. Set order does not matter here.
   */
  method Register(assoc: HashTable<int, seq<Package>>, p: Package, ids: set<int>)
    requires assoc.Valid() && forall x :: x in assoc.Contents ==> p !in assoc.Contents[x]
    modifies assoc.Repr
    ensures assoc.Valid() && assoc.Repr == old(assoc.Repr)
    ensures assoc.Contents == Registered(old(assoc.Contents), ids, p)
  {
    ghost var m := assoc.Contents;
    var todo := ids;
    while todo != {}
      invariant todo <= ids && assoc.Valid() && assoc.Repr == old(assoc.Repr)
      invariant assoc.Contents == Registered(m, ids - todo, p)
      decreases |todo|
    {
      HasMember(todo);
      var x :| x in todo;
      var s := assoc.Get(x);
      var l := if s.Some? then s.value else [];
      assert p !in l;
      assoc.Put(x, AddOne(l, p));
      RegisteredStep(m, ids - todo, p, x);
      assert ids - (todo - {x}) == (ids - todo) + {x};
      todo := todo - {x};
    }
    assert ids - todo == ids;
  }

  /**
   * destinations.get, put and append: p joins the end of the list of
   * address a, a new list when there is none. Python puts the new list
   * first and appends to it in place; the table ends up the same.
   */
  method ListAt(dest: HashTable<string, seq<Package>>, a: string, p: Package)
    requires dest.Valid()
    modifies dest.Repr
    ensures dest.Valid() && dest.Repr == old(dest.Repr)
    ensures dest.Contents == old(dest.Contents)[a := (if a in old(dest.Contents) then old(dest.Contents)[a] else []) + [p]]
  {
    var listed := dest.Get(a);
    var l := if listed.Some? then listed.value else [];
    dest.Put(a, l + [p]);
  }

  /** package_table.insert(package.id, package) and the append to the list at its address. */
  method FileAt(p: Package, t: HashTable<int, Package>, dest: HashTable<string, seq<Package>>,
                ghost ps: seq<Package>, ghost keys: seq<string>)
    requires |ps| < |keys| && p.addressZip == keys[|ps|]
    requires t.Valid() && dest.Valid() && t.Repr !! dest.Repr
    requires t.Contents == ById(ps) && dest.Contents == ByAddress(ps, keys)
    modifies t.Repr, dest.Repr
    ensures t.Valid() && dest.Valid() && t.Repr == old(t.Repr) && dest.Repr == old(dest.Repr)
    ensures t.Contents == ById(ps + [p]) && dest.Contents == ByAddress(ps + [p], keys)
  {
    assert (ps + [p])[..|ps|] == ps;
    t.Put(p.id, p);
    ListAt(dest, p.addressZip, p);
  }

  /**
   * The id loop of one row, then the look-up of the packages whose notes
   * named the new package's own id; q is them, in file order.
   */
  method FileAssoc(p: Package, assoc: HashTable<int, seq<Package>>, ghost ps: seq<Package>,
                   ghost named: seq<set<int>>)
    returns (q: seq<Package>)
    requires |ps| < |named| && p.associatedIds == named[|ps|] && p !in ps && NoDups(ps)
    requires assoc.Valid() && assoc.Contents == Associates(ps, named)
    modifies assoc.Repr
    ensures assoc.Valid() && assoc.Repr == old(assoc.Repr)
    ensures assoc.Contents == Associates(ps + [p], named)
    ensures q == Naming(ps + [p], named, p.id) && Within(q, ps + [p])
  {
    ghost var ps' := ps + [p];
    assert forall x :: x in assoc.Contents ==> p !in assoc.Contents[x] by {
      forall x | x in assoc.Contents ensures p !in assoc.Contents[x] {
        if ps != [] {
          NamingMembers(ps, named, x, 0);
        }
      }
    }
    Register(assoc, p, p.associatedIds);
    AssociatesStep(ps, named, p);
    var listed := assoc.Get(p.id);
    if listed.None? {
      NamingOutside(ps', named, p.id);
    }
    q := if listed.Some? then listed.value else [];
    NamingMembers(ps', named, p.id, 0);
  }

  /** The table phase of one row: p is filed in all three tables; q is the packages naming its id. */
  method FileTables(p: Package, t: HashTable<int, Package>, dest: HashTable<string, seq<Package>>,
                    assoc: HashTable<int, seq<Package>>, ghost ps: seq<Package>, ghost keys: seq<string>,
                    ghost named: seq<set<int>>)
    returns (q: seq<Package>)
    requires |ps| < |keys| && |ps| < |named|
    requires p.addressZip == keys[|ps|] && p.associatedIds == named[|ps|] && p !in ps && NoDups(ps)
    requires Tables(t, dest, assoc) && Filled(ps, keys, named, t, dest, assoc)
    modifies t.Repr, dest.Repr, assoc.Repr
    ensures Tables(t, dest, assoc) && t.Repr == old(t.Repr) && dest.Repr == old(dest.Repr) && assoc.Repr == old(assoc.Repr)
    ensures Filled(ps + [p], keys, named, t, dest, assoc)
    ensures q == Naming(ps + [p], named, p.id) && Within(q, ps + [p])
  {
    FileAt(p, t, dest, ps, keys);
    q := FileAssoc(p, assoc, ps, named);
  }

  /** The linking phase of one row: p is associated both ways with each package naming its id. */
  method LinkRow(p: Package, q: seq<Package>, ghost ps: seq<Package>, ghost ids: seq<int>,
                 ghost named: seq<set<int>>, ghost rows: seq<PackageRecord>, ghost others: set<object>)
    requires |ps| < |ids| && |ps| < |named| && |ps| < |rows|
    requires p.id == ids[|ps|] && p.associated == [] && p !in ps
    requires q == Naming(ps + [p], named, p.id) && Within(q, ps + [p])
    requires ReadFrom(ps, ids, named) && ParsedAll(rows, ps + [p])
    requires p !in others && forall k :: 0 <= k < |ps| ==> ps[k] !in others
    modifies ps, p
    ensures ReadFrom(ps + [p], ids, named) && ParsedAll(rows, ps + [p]) && unchanged(others)
  {
    ghost var ps' := ps + [p];
    StartLinks(ps, ids, named, p);
    LinkAll(p, q, ps', ids, named, rows, others);
    FinishLinks(ps', ids, named);
  }

  /**
   * A new package p, made from row i of a file whose rows have the ids,
   * addresses and named ids given, enters the tables: it is put in the
   * package table under its id and listed under its address, registered
   * under every id its note names, then linked with every package naming
   * its own id.
   */
  method File(p: Package, t: HashTable<int, Package>, dest: HashTable<string, seq<Package>>,
              assoc: HashTable<int, seq<Package>>, ghost ps: seq<Package>, ghost keys: seq<string>,
              ghost ids: seq<int>, ghost named: seq<set<int>>, ghost rows: seq<PackageRecord>)
    requires |ps| < |keys| && |ps| < |ids| && |ps| < |named| && |ps| < |rows|
    requires p.id == ids[|ps|] && p.addressZip == keys[|ps|] && p.associatedIds == named[|ps|] && p.associated == []
    requires p !in ps && p !in t.Repr && p !in dest.Repr && p !in assoc.Repr
    requires Tables(t, dest, assoc) && OutsideTables(ps, t, dest, assoc)
    requires Filled(ps, keys, named, t, dest, assoc) && ReadFrom(ps, ids, named) && ParsedAll(rows, ps + [p])
    modifies t.Repr, dest.Repr, assoc.Repr, ps, p
    ensures Tables(t, dest, assoc) && t.Repr == old(t.Repr) && dest.Repr == old(dest.Repr) && assoc.Repr == old(assoc.Repr)
    ensures Filled(ps + [p], keys, named, t, dest, assoc) && ReadFrom(ps + [p], ids, named) && ParsedAll(rows, ps + [p])
  {
    var q := FileTables(p, t, dest, assoc, ps, keys, named);
    label Filed:
    LinkRow(p, q, ps, ids, named, rows, t.Repr + dest.Repr + assoc.Repr);
    t.StillValid@Filed();
    dest.StillValid@Filed();
    assoc.StillValid@Filed();
  }

  /** A package just made from row |ps| is filed, extending what the tables hold to one more row. */
  method FileRow(p: Package, t: HashTable<int, Package>, dest: HashTable<string, seq<Package>>,
                 assoc: HashTable<int, seq<Package>>, ghost ps: seq<Package>, ghost keys: seq<string>,
                 ghost ids: seq<int>, ghost named: seq<set<int>>, ghost rows: seq<PackageRecord>)
    requires |ps| < |rows| && Describes(rows, keys, ids, named)
    requires p.associated == [] && p.Parsed(rows[|ps|])
    requires p !in ps && p !in t.Repr && p !in dest.Repr && p !in assoc.Repr
    requires ReadInto(rows, keys, ids, named, ps, t, dest, assoc)
    modifies t.Repr, dest.Repr, assoc.Repr, ps, p
    ensures t.Repr == old(t.Repr) && dest.Repr == old(dest.Repr) && assoc.Repr == old(assoc.Repr)
    ensures ReadInto(rows, keys, ids, named, ps + [p], t, dest, assoc)
  {
    ParsedGives(p, rows[|ps|], keys[|ps|], ids[|ps|], named[|ps|]);
    ParsedGrow(rows, ps, p);
    OutsideGrow(ps, p, t, dest, assoc);
    File(p, t, dest, assoc, ps, keys, ids, named, rows);
  }

  /**
   * One row of _load_packages: the package is made from it and filed. A
   * deadline that does not parse raises before anything changes.
   */
  method ReadRow(rows: seq<PackageRecord>, i: nat, t: HashTable<int, Package>, dest: HashTable<string, seq<Package>>,
                 assoc: HashTable<int, seq<Package>>, ghost ps: seq<Package>, ghost keys: seq<string>,
                 ghost ids: seq<int>, ghost named: seq<set<int>>, ghost made: set<object>)
    returns (r: Outcome<Error>, ghost ps': seq<Package>, ghost made': set<object>)
    requires i == |ps| < |rows| && Describes(rows, keys, ids, named)
    requires ReadInto(rows, keys, ids, named, ps, t, dest, assoc)
    requires forall k :: 0 <= k < |ps| ==> ps[k] in made
    modifies t.Repr, dest.Repr, assoc.Repr, ps
    ensures t.Repr == old(t.Repr) && dest.Repr == old(dest.Repr) && assoc.Repr == old(assoc.Repr)
    ensures r.Fail? <==> MinutesFromString(rows[i].deadline).None?
    ensures r.Fail? ==> r.error == BadTime && ps' == ps
    ensures r.Pass? ==> |ps'| == i + 1 && ps' == ps + [ps'[i]] && fresh(ps'[i]) && made' == made + {ps'[i]}
    ensures r.Fail? ==> made' == made
    ensures forall k :: 0 <= k < |ps'| ==> ps'[k] in made'
    ensures |ps'| <= |rows| && ReadInto(rows, keys, ids, named, ps', t, dest, assoc)
  {
    var package := NewPackage(rows[i]);
    if package.Err? {
      return Fail(package.error), ps, made;
    }
    var p := package.value;
    ps', made' := ps + [p], made + {p};
    FileRow(p, t, dest, assoc, ps, keys, ids, named, rows);
    r := Pass;
  }

  /** The loop of _load_packages over the rows, into empty tables; it stops at the first row that raises. */
  method ReadRows(rows: seq<PackageRecord>, t: HashTable<int, Package>, dest: HashTable<string, seq<Package>>,
                  assoc: HashTable<int, seq<Package>>, ghost keys: seq<string>, ghost ids: seq<int>,
                  ghost named: seq<set<int>>)
    returns (r: Outcome<Error>, ghost ps: seq<Package>)
    requires Describes(rows, keys, ids, named)
    requires Tables(t, dest, assoc) && t.Contents == map[] && dest.Contents == map[] && assoc.Contents == map[]
    modifies t.Repr, dest.Repr, assoc.Repr
    ensures t.Repr == old(t.Repr) && dest.Repr == old(dest.Repr) && assoc.Repr == old(assoc.Repr)
    ensures |ps| <= |rows| && ReadInto(rows, keys, ids, named, ps, t, dest, assoc)
    ensures forall k :: 0 <= k < |ps| ==> fresh(ps[k])
    ensures r.Pass? <==> |ps| == |rows|
    ensures r.Fail? ==> r.error == BadTime && MinutesFromString(rows[|ps|].deadline).None?
  {
    ps := [];
    assert Associates(ps, named) == map[];
    var i := 0;
    ghost var made: set<object> := {};
    while i < |rows|
      invariant i == |ps| <= |rows|
      invariant t.Repr == old(t.Repr) && dest.Repr == old(dest.Repr) && assoc.Repr == old(assoc.Repr)
      invariant ReadInto(rows, keys, ids, named, ps, t, dest, assoc)
      invariant fresh(made) && forall k :: 0 <= k < |ps| ==> ps[k] in made
    {
      r, ps, made := ReadRow(rows, i, t, dest, assoc, ps, keys, ids, named, made);
      if r.Fail? {
        return;
      }
      i := i + 1;
    }
    r := Pass;
  }

  /**
   * The body of _load_packages on fresh tables: the package table keyed by
   * id, the destinations keyed by address (h being Python's hash() on
   * strings) and the association table, which is dropped at the end. A
   * deadline that does not parse raises at its row.
   */
  method LoadTables(h: string -> int, rows: seq<PackageRecord>)
    returns (r: Outcome<Error>, t: HashTable<int, Package>, dest: HashTable<string, seq<Package>>,
             ghost ps: seq<Package>)
    ensures fresh(t.Repr) && fresh(dest.Repr) && t.Valid() && dest.Valid() && t.Repr !! dest.Repr
    ensures t.hash == PyIntHash && dest.hash == h
    ensures ReadOff(rows, ps) && forall k :: 0 <= k < |ps| ==> fresh(ps[k]) && ps[k] !in t.Repr
    ensures t.Contents == ById(ps) && dest.Contents == ByAddress(ps, AddressKeys(rows))
    ensures r.Pass? <==> forall k :: 0 <= k < |rows| ==> MinutesFromString(rows[k].deadline).Some?
    ensures r.Pass? ==> |ps| == |rows|
    ensures r.Fail? ==> |ps| < |rows| && r.error == BadTime && MinutesFromString(rows[|ps|].deadline).None?
  {
    t := new HashTable(DefaultLength, PyIntHash);
    dest := new HashTable(DefaultLength, h);
    var assoc := new HashTable<int, seq<Package>>(DefaultLength, PyIntHash);
    DescribedBy(rows);
    r, ps := ReadRows(rows, t, dest, assoc, AddressKeys(rows), RowIds(rows), NamedBy(rows));
    ParsedTimed(rows, ps);
  }

  /**
   * The inner loop of _load_distances: an edge from location to the idx-th
   * location listed so far for each distance in turn; ks are the listed
   * locations' vertex keys. A distance past the end of the list raises
   * IndexError there.
   */
  method AddEdges(g: Graph, location: Location, locations: seq<Location>, ds: seq<real>, ghost ks: seq<int>)
    returns (r: Outcome<Error>)
    requires g.Valid() && |ks| == |locations| && Hash(g.h, location) in g.Dist
    requires forall j :: 0 <= j < |locations| ==> ks[j] == Hash(g.h, locations[j]) && ks[j] in g.Dist
    modifies g.Repr
    ensures g.Valid() && g.Repr == old(g.Repr)
    ensures r.Pass? <==> |ds| <= |locations|
    ensures r.Fail? ==> r.error == IndexOutOfRange
    ensures r.Pass? ==> g.Dist == EdgesFrom(old(g.Dist), Hash(g.h, location), ks, ds, |ds|)
  {
    ghost var D := g.Dist;
    for idx := 0 to |ds|
      invariant idx <= |locations|
      invariant g.Valid() && g.Repr == old(g.Repr)
      invariant g.Dist == EdgesFrom(D, Hash(g.h, location), ks, ds, idx)
    {
      if idx >= |locations| {
        return Fail(IndexOutOfRange);
      }
      AddEdgeAt(g, location, locations, ds, ks, idx, D);
    }
    return Pass;
  }

  /** One pass of AddEdges' loop: the idx-th edge is added on top of the first idx. */
  method AddEdgeAt(g: Graph, location: Location, locations: seq<Location>, ds: seq<real>,
                   ghost ks: seq<int>, idx: nat, ghost D: Distances)
    requires g.Valid() && |ks| == |locations| && idx < |ds| && idx < |locations|
    requires Hash(g.h, location) in D
    requires forall j :: 0 <= j < |locations| ==> ks[j] == Hash(g.h, locations[j]) && ks[j] in D
    requires g.Dist == EdgesFrom(D, Hash(g.h, location), ks, ds, idx)
    modifies g.Repr
    ensures g.Valid() && g.Repr == old(g.Repr)
    ensures g.Dist == EdgesFrom(D, Hash(g.h, location), ks, ds, idx + 1)
  {
    var added := g.AddEdge(location, locations[idx], ds[idx]);
    assert added.Pass?;
  }

  /**
   * The outer loop of _load_distances into an empty graph: each row's
   * location is listed, added as a vertex, then joined to the listed
   * locations by the row's distances.
   */
  method BuildGraph(g: Graph, rows: seq<DistanceRow>) returns (r: Outcome<Error>)
    requires g.Valid() && g.Dist == map[]
    modifies g.Repr
    ensures g.Valid() && fresh(g.Repr - old(g.Repr))
    ensures r.Pass? <==> Fits(Table(rows))
    ensures r.Fail? ==> r.error == IndexOutOfRange
    ensures r.Pass? ==> g.Dist == DistancesOf(RowKeys(g.h, rows), Table(rows)).value
  {
    ghost var ks, dss := RowKeys(g.h, rows), Table(rows);
    var locations: seq<Location> := [];
    for i := 0 to |rows|
      invariant |locations| == i && KeysOf(g.h, locations) == ks[..i]
      invariant g.Valid() && fresh(g.Repr - old(g.Repr))
      invariant Fits(dss[..i]) && g.Dist == DistancesOf(ks[..i], dss[..i]).value
    {
      var location := LocationOf(rows[i]);
      r, locations := AddRow(g, location, rows[i].distances, locations, ks, dss);
      if r.Fail? {
        assert g.Valid() && fresh(g.Repr - old(g.Repr));
        FitsPrefixFails(dss, i);
        return;
      }
    }
    assert ks[..|rows|] == ks && dss[..|rows|] == dss;
    return Pass;
  }

  /** The vertex keys of a list of locations, in order. */
  ghost function KeysOf(h: string -> int, locations: seq<Location>): (ks: seq<int>)
    ensures |ks| == |locations| && forall j :: 0 <= j < |locations| ==> ks[j] == Hash(h, locations[j])
  {
    seq(|locations|, j requires 0 <= j < |locations| => Hash(h, locations[j]))
  }

  /** Listing one more location whose key is the next of ks keeps the listed keys a prefix of ks. */
  lemma KeysGrow(h: string -> int, locations: seq<Location>, location: Location, ks: seq<int>)
    requires |locations| < |ks| && KeysOf(h, locations) == ks[..|locations|] && ks[|locations|] == Hash(h, location)
    ensures KeysOf(h, locations + [location]) == ks[..|locations| + 1]
    ensures forall j :: 0 <= j <= |locations| ==> ks[j] == Hash(h, (locations + [location])[j])
  {
    var n := |locations|;
    assert forall j :: 0 <= j < n ==> Hash(h, locations[j]) == KeysOf(h, locations)[j] == ks[..n][j];
  }

  /**
   * One pass of BuildGraph's loop: the row's location is listed and added as
   * a vertex, then its distances ds become edges. Failure means the row, the
   * i-th, has more distances than there are rows up to and including it.
   */
  method AddRow(g: Graph, location: Location, ds: seq<real>, locations: seq<Location>,
                ghost ks: seq<int>, ghost dss: seq<seq<real>>)
    returns (r: Outcome<Error>, locations': seq<Location>)
    requires |locations| < |ks| == |dss| && ks[|locations|] == Hash(g.h, location) && dss[|locations|] == ds
    requires KeysOf(g.h, locations) == ks[..|locations|]
    requires g.Valid() && Fits(dss[..|locations|]) && g.Dist == DistancesOf(ks[..|locations|], dss[..|locations|]).value
    modifies g.Repr
    ensures g.Valid() && fresh(g.Repr - old(g.Repr))
    ensures r.Pass? <==> |ds| <= |locations'|
    ensures r.Fail? ==> r.error == IndexOutOfRange
    ensures locations' == locations + [location] && KeysOf(g.h, locations') == ks[..|locations'|]
    ensures r.Pass? ==> Fits(dss[..|locations'|]) && g.Dist == DistancesOf(ks[..|locations'|], dss[..|locations'|]).value
  {
    ghost var i := |locations|;
    locations' := locations + [location];
    KeysGrow(g.h, locations, location, ks);
    ghost var D := g.Dist;
    g.AddVertex(location);
    ghost var ks' := ks[..i + 1];
    DistancesPrefixKeys(ks, dss, i);
    assert forall j :: 0 <= j < |locations'| ==> ks'[j] in g.Dist;
    r := AddEdges(g, location, locations', ds, ks');
    if r.Pass? {
      Extended(ks, dss, i, D);
    }
  }

  /** [Truck() for i in range(n)]: n new, empty trucks numbered on from the counter. */
  method MakeTrucks(counter: TruckCounter, n: nat) returns (ts: seq<Truck>)
    modifies counter
    ensures |ts| == n && counter.count == old(counter.count) + n
    ensures forall k :: 0 <= k < n ==> fresh(ts[k]) && ts[k].Valid() && ts[k].packages == [] &&
                                       ts[k].mileage == 0.0 && ts[k].delivered == 0
    ensures forall k :: 0 <= k < n ==> ts[k].id == old(counter.count) + k + 1
    ensures forall i, j :: 0 <= i < j < n ==> ts[i] != ts[j]
  {
    ts := [];
    for i := 0 to n
      invariant |ts| == i && counter.count == old(counter.count) + i
      invariant forall k :: 0 <= k < i ==> fresh(ts[k]) && ts[k].Valid() && ts[k].packages == [] &&
                                           ts[k].mileage == 0.0 && ts[k].delivered == 0
      invariant forall k :: 0 <= k < i ==> ts[k].id == old(counter.count) + k + 1
    {
      var t := new Truck(counter);
      ts := ts + [t];
    }
  }

  /**
   * The list any() looks at for package p, built in full: every truck of ts
   * in turn, is_available asked only where p is urgent at that truck's time.
   * The first part says whether some truck said yes, the second is the
   * exclude set afterwards.
   */
  ghost function AskTrucks(p: Package, ts: seq<Truck>, ex: set<Package>, U: set<Package>): (r: (bool, set<Package>))
    requires p in U && Closed(U)
    reads U, ts
    ensures ex <= r.1 <= ex + U
    decreases |ts|
  {
    if ts == [] then (false, ex)
    else
      var prev := AskTrucks(p, ts[..|ts| - 1], ex, U);
      var t := ts[|ts| - 1];
      if p.IsUrgent(t.Time()) then
        var a := Availability(p, t.id, t.Time(), prev.1, U);
        (prev.0 || a.0, a.1)
      else prev
  }

  /** Some truck said yes exactly when p was urgent at its time and available to it, given the set the earlier trucks left. */
  lemma {:induction false} AskTrucksFound(p: Package, ts: seq<Truck>, ex: set<Package>, U: set<Package>)
    requires p in U && Closed(U)
    ensures AskTrucks(p, ts, ex, U).0 <==>
              exists j :: 0 <= j < |ts| && p.IsUrgent(ts[j].Time()) &&
                          Availability(p, ts[j].id, ts[j].Time(), AskTrucks(p, ts[..j], ex, U).1, U).0
    decreases |ts|
  {
    if ts != [] {
      var n := |ts| - 1;
      var front := ts[..n];
      AskTrucksFound(p, front, ex, U);
      forall j | 0 <= j < n ensures ts[..j] == front[..j] && ts[j] == front[j] {
      }
    }
  }

  /**
   * The urgent set of _deliver_urgent_packages, as a fold over the table's
   * items: a package joins (set.add) when AskTrucks says yes, with the
   * exclude set threaded from one package to the next.
   */
  ghost function UrgentFold(all: seq<(int, Package)>, ts: seq<Truck>, ex: set<Package>, U: set<Package>): (r: (seq<Package>, set<Package>))
    requires Closed(U) && forall k :: 0 <= k < |all| ==> all[k].1 in U
    reads U, ts
    ensures ex <= r.1 <= ex + U
    decreases |all|
  {
    if all == [] then ([], ex)
    else
      var prev := UrgentFold(all[..|all| - 1], ts, ex, U);
      var p := all[|all| - 1].1;
      var a := AskTrucks(p, ts, prev.1, U);
      (if a.0 then AddOne(prev.0, p) else prev.0, a.1)
  }

  /** A package is in the urgent set exactly when some truck said yes when the loop reached it. */
  lemma {:induction false} UrgentFoldMembers(all: seq<(int, Package)>, ts: seq<Truck>, ex: set<Package>, U: set<Package>)
    requires Closed(U) && forall k :: 0 <= k < |all| ==> all[k].1 in U
    ensures forall p :: p in UrgentFold(all, ts, ex, U).0 <==>
              exists k :: 0 <= k < |all| && all[k].1 == p && AskTrucks(p, ts, UrgentFold(all[..k], ts, ex, U).1, U).0
    ensures NoDups(UrgentFold(all, ts, ex, U).0)
    decreases |all|
  {
    if all != [] {
      var n := |all| - 1;
      var front := all[..n];
      UrgentFoldMembers(front, ts, ex, U);
      forall k | 0 <= k < n ensures all[..k] == front[..k] && all[k] == front[k] {
      }
      assert all[..n] == front;
    }
  }

  /** p is urgent at the time of some truck of ts and passes its own checks for it. */
  ghost predicate UrgentFor(p: Package, ts: seq<Truck>)
    reads p, ts
  {
    exists t :: t in ts && p.IsUrgent(t.Time()) && p.Eligible(t.id, t.Time())
  }

  /** A yes comes from a truck p is urgent and eligible for; without associates such a truck is enough. */
  lemma AskTrucksEligible(p: Package, ts: seq<Truck>, ex: set<Package>, U: set<Package>)
    requires p in U && Closed(U)
    ensures AskTrucks(p, ts, ex, U).0 ==> UrgentFor(p, ts)
    ensures p.associated == [] && UrgentFor(p, ts) ==> AskTrucks(p, ts, ex, U).0
  {
    AskTrucksFound(p, ts, ex, U);
    if AskTrucks(p, ts, ex, U).0 {
      var j :| 0 <= j < |ts| && p.IsUrgent(ts[j].Time()) &&
               Availability(p, ts[j].id, ts[j].Time(), AskTrucks(p, ts[..j], ex, U).1, U).0;
      AvailableIsEligible(p, ts[j].id, ts[j].Time(), AskTrucks(p, ts[..j], ex, U).1, U);
    }
    if p.associated == [] && UrgentFor(p, ts) {
      var t :| t in ts && p.IsUrgent(t.Time()) && p.Eligible(t.id, t.Time());
      var j :| 0 <= j < |ts| && ts[j] == t;
      AloneIsAvailable(p, t.id, t.Time(), AskTrucks(p, ts[..j], ex, U).1, U);
    }
  }

  /**
   * The urgent set holds packages of U that are at the hub and urgent and
   * eligible for some truck, without repeats; and it holds every package
   * of the items without associates that is urgent and eligible for some truck.
   */
  lemma UrgentFoldBounds(all: seq<(int, Package)>, ts: seq<Truck>, ex: set<Package>, U: set<Package>)
    requires Closed(U) && forall k :: 0 <= k < |all| ==> all[k].1 in U
    ensures var u := UrgentFold(all, ts, ex, U).0;
            NoDups(u) && forall p :: p in u ==> p in U && p.status == AtTheHub && UrgentFor(p, ts)
    ensures forall k :: 0 <= k < |all| && all[k].1.associated == [] && UrgentFor(all[k].1, ts) ==>
              all[k].1 in UrgentFold(all, ts, ex, U).0
  {
    UrgentFoldMembers(all, ts, ex, U);
    var u := UrgentFold(all, ts, ex, U).0;
    forall p | p in u ensures p in U && p.status == AtTheHub && UrgentFor(p, ts) {
      assert p in UrgentFold(all, ts, ex, U).0;
      assert exists k :: 0 <= k < |all| && all[k].1 == p && AskTrucks(p, ts, UrgentFold(all[..k], ts, ex, U).1, U).0;
      var k :| 0 <= k < |all| && all[k].1 == p && AskTrucks(p, ts, UrgentFold(all[..k], ts, ex, U).1, U).0;
      AskTrucksEligible(p, ts, UrgentFold(all[..k], ts, ex, U).1, U);
    }
    forall k | 0 <= k < |all| && all[k].1.associated == [] && UrgentFor(all[k].1, ts) ensures all[k].1 in u {
      AskTrucksEligible(all[k].1, ts, UrgentFold(all[..k], ts, ex, U).1, U);
    }
  }

  /**
   * The is_available half of one truck's scan in _transport_packages, as a
   * fold: the packages of ps that accept, in order, with the exclude set
   * threaded from one to the next.
   */
  ghost function AcceptedFold(ps: seq<Package>, truckId: int, time: real, ex: set<Package>, U: set<Package>)
    : (r: (seq<Package>, set<Package>))
    requires Closed(U) && forall i :: 0 <= i < |ps| ==> ps[i] in U
    reads U
    ensures ex <= r.1 <= ex + U
    decreases |ps|
  {
    if ps == [] then ([], ex)
    else
      var prev := AcceptedFold(ps[..|ps| - 1], truckId, time, ex, U);
      var p := ps[|ps| - 1];
      var a := Availability(p, truckId, time, prev.1, U);
      (if a.0 then prev.0 + [p] else prev.0, a.1)
  }

  /** A package is accepted exactly when is_available said yes as the scan reached it. */
  lemma {:induction false} AcceptedFoldMembers(ps: seq<Package>, truckId: int, time: real, ex: set<Package>, U: set<Package>)
    requires Closed(U) && forall i :: 0 <= i < |ps| ==> ps[i] in U
    ensures forall p :: p in AcceptedFold(ps, truckId, time, ex, U).0 <==>
              exists k :: 0 <= k < |ps| && ps[k] == p &&
                          Availability(p, truckId, time, AcceptedFold(ps[..k], truckId, time, ex, U).1, U).0
    decreases |ps|
  {
    if ps != [] {
      var n := |ps| - 1;
      var front := ps[..n];
      AcceptedFoldMembers(front, truckId, time, ex, U);
      forall k | 0 <= k < n ensures ps[..k] == front[..k] && ps[k] == front[k] {
      }
    }
  }

  /** The sum of the counts the drain loop subtracts. */
  function Total(xs: seq<nat>): nat {
    if xs == [] then 0 else Total(xs[..|xs| - 1]) + xs[|xs| - 1]
  }

  class Simulator {
    /** Python's hash() on strings. */
    const h: string -> int
    /** Truck._count: the class-level counter every new truck takes its number from. */
    const counter: TruckCounter
    /** The set the default argument of is_available stands for. */
    const shared: DefaultExclude

    var trucks: seq<Truck>
    var packages: HashTable<int, Package>
    /** _packages_with_wrong_address: None until the first transport builds it. */
    var wrongAddress: Option<seq<Package>>
    var graph: Graph

    /** Every package the simulator has made: those in the table and any it has since replaced. */
    ghost var Pkgs: set<Package>
    ghost var Repr: set<object>

    /** The tables the simulator owns are valid and apart from each other and from the shared objects. */
    ghost predicate Owned()
      reads this`Repr, this`packages, this`graph, this`Pkgs, Repr - {this}
    {
      this in Repr && packages in Repr && graph in Repr && packages.Repr <= Repr && graph.Repr <= Repr &&
      this !in packages.Repr && this !in graph.Repr && packages.Repr !! graph.Repr &&
      packages.Valid() && graph.Valid() && graph.h == h &&
      counter !in Repr && shared !in Repr &&
      forall k :: k in packages.Contents ==> packages.Contents[k] in Pkgs
    }

    /** Truck t is valid and carries only packages of the simulator. */
    ghost predicate Carries(t: Truck)
      reads this`Pkgs, t
    {
      t.Valid() && forall i :: 0 <= i < |t.packages| ==> t.packages[i] in Pkgs
    }

    /**
     * The trucks and the packages: the packages' associates are packages of
     * the simulator; no truck is listed twice, and the trucks are valid and
     * carry only packages of the simulator; the wrong-address list holds
     * only them.
     */
    ghost predicate Fleet()
      reads this`trucks, this`Pkgs, this`Repr, this`wrongAddress, trucks, Pkgs
    {
      Closed(Pkgs) &&
      (forall p :: p in Pkgs ==> p !in Repr) &&
      TrucksApart(trucks) && (forall t :: t in trucks ==> t !in Repr && Carries(t)) &&
      (wrongAddress.Some? ==> forall p :: p in wrongAddress.value ==> p in Pkgs)
    }

    ghost predicate Valid()
      reads this, Repr, trucks, Pkgs
    {
      Owned() && Fleet()
    }

    /** The packages of the simulator not yet delivered. */
    ghost function Undone(): set<Package>
      reads this`Pkgs, Pkgs
    {
      set p | p in Pkgs && p.status != Delivered
    }

    /** Simulator(): no trucks, no packages, no distances yet (Python leaves None where this has empty ones). */
    constructor (h: string -> int, counter: TruckCounter, shared: DefaultExclude)
      ensures Valid() && fresh(Repr)
      ensures this.h == h && this.counter == counter && this.shared == shared
      ensures trucks == [] && Pkgs == {} && wrongAddress == None
      ensures packages.Contents == map[] && graph.Dist == map[]
    {
      this.h := h;
      this.counter := counter;
      this.shared := shared;
      trucks := [];
      packages := new HashTable(DefaultLength, PyIntHash);
      wrongAddress := None;
      graph := new Graph(h);
      Pkgs := {};
      new;
      Repr := {this} + packages.Repr + graph.Repr;
    }

    /**
     * _load_packages: the package table is replaced by a new one filled from
     * the rows, and the destinations table is returned. A row whose
     * deadline does not parse raises; the rows before it stay loaded.
     */
    method LoadPackages(rows: seq<PackageRecord>) returns (r: Result<HashTable<string, seq<Package>>, Error>,
                                                          ghost ps: seq<Package>)
      requires Valid()
      modifies this
      ensures Valid() && unchanged(this`trucks, this`graph, this`wrongAddress)
      ensures Pkgs == old(Pkgs) + set k | 0 <= k < |ps| :: ps[k]
      ensures ReadOff(rows, ps) && packages.Contents == ById(ps) && forall k :: 0 <= k < |ps| ==> fresh(ps[k])
      ensures r.Ok? <==> forall k :: 0 <= k < |rows| ==> MinutesFromString(rows[k].deadline).Some?
      ensures r.Ok? ==> |ps| == |rows| && r.value.Contents == ByAddress(ps, AddressKeys(rows)) && Serves(r.value)
      ensures r.Err? ==> |ps| < |rows| && r.error == BadTime && MinutesFromString(rows[|ps|].deadline).None?
    {
      var o, t, dest;
      o, t, dest, ps := LoadTables(h, rows);
      Install(t, dest, ps);
      if o.Fail? {
        return Err(o.error), ps;
      }
      return Ok(dest), ps;
    }

    /** self._packages = the new table: its packages join those of the simulator. */
    method Install(t: HashTable<int, Package>, dest: HashTable<string, seq<Package>>, ghost ps: seq<Package>)
      requires Valid() && t.Valid() && this !in t.Repr && t.Repr !! Repr
      requires forall p :: p in Pkgs ==> p !in t.Repr
      requires forall tr :: tr in trucks ==> tr !in t.Repr
      requires Among(ps) && forall k :: 0 <= k < |ps| ==> ps[k] !in Repr && ps[k] !in t.Repr
      requires forall x :: x in t.Contents ==> t.Contents[x] in ps
      requires dest.Valid() && this !in dest.Repr
      requires forall a, i :: a in dest.Contents && 0 <= i < |dest.Contents[a]| ==> dest.Contents[a][i] in ps
      modifies this
      ensures Valid() && packages == t && unchanged(this`trucks, this`graph, this`wrongAddress)
      ensures Pkgs == old(Pkgs) + set k | 0 <= k < |ps| :: ps[k]
      ensures Serves(dest) && unchanged(ps)
    {
      ClosedUnion(Pkgs, ps);
      packages := t;
      Pkgs := Pkgs + set k | 0 <= k < |ps| :: ps[k];
      Repr := {this} + t.Repr + graph.Repr;
    }

    /**
     * _load_distances: a new graph built from the distance rows becomes the
     * simulator's graph. A row with more distances than there are rows up to
     * and including it raises IndexError; the partly built graph is kept.
     */
    method LoadDistances(rows: seq<DistanceRow>) returns (r: Outcome<Error>)
      requires Valid()
      modifies this
      ensures Valid() && unchanged(this`trucks, this`packages, this`wrongAddress, this`Pkgs)
      ensures r.Pass? <==> Fits(Table(rows))
      ensures r.Fail? ==> r.error == IndexOutOfRange
      ensures r.Pass? ==> graph.Dist == DistancesOf(RowKeys(h, rows), Table(rows)).value
    {
      var g := new Graph(h);
      r := BuildGraph(g, rows);
      InstallGraph(g);
    }

    /** self._graph = the new graph. */
    method InstallGraph(g: Graph)
      requires Valid() && g.Valid() && g.h == h && this !in g.Repr && g.Repr !! Repr
      requires counter !in g.Repr && shared !in g.Repr
      requires forall p :: p in Pkgs ==> p !in g.Repr
      requires forall tr :: tr in trucks ==> tr !in g.Repr
      modifies this
      ensures Valid() && graph == g && unchanged(this`trucks, this`packages, this`wrongAddress, this`Pkgs)
    {
      graph := g;
      Repr := {this} + packages.Repr + g.Repr;
    }

    /** truck.load(p), keeping the simulator valid. */
    method LoadTruck(t: Truck, p: Package) returns (r: Outcome<Error>)
      requires Valid() && t in trucks && p in Pkgs
      modifies t, p
      ensures Valid()
      ensures r.Pass? <==> !old(t.IsFull()) && old(p.status) != EnRoute &&
                           (old(p.requiredTruck).None? || old(p.requiredTruck).value in {0, t.id})
      ensures r.Pass? ==> t.packages == old(t.packages) + [p] && p.status == EnRoute
      ensures r.Fail? ==> t.packages == old(t.packages) && unchanged(p)
      ensures t.mileage == old(t.mileage)
    {
      r := t.Load(p);
    }

    /** truck.deliver(graph), keeping the simulator valid. */
    method DeliverTruck(t: Truck) returns (r: Outcome<Error>)
      requires Valid() && t in trucks
      modifies t, t.packages`status, t.packages`deliveredAt, t.packages`deliveryNumber
      ensures r.Pass? <==> RouteKnown(graph.Dist, h, old(Route(t.packages))) && Distinct(old(t.packages)) &&
                           Delivered !in old(Statuses(t.packages))
      ensures r.Pass? ==> Valid() && t.packages == []
      ensures r.Pass? ==> forall p :: p in old(t.packages) ==> p.status == Delivered
      ensures r.Pass? ==> var batch := set p | p in old(t.packages);
                          batch <= old(Undone()) && Undone() == old(Undone()) - batch
    {
      ghost var ps := t.packages;
      assert t !in Repr && forall i :: 0 <= i < |ps| ==> ps[i] !in Repr;
      assert Carries(t);
      r := Trip(t, graph);
      if r.Pass? {
        assert unchanged(Repr);
        OwnedAfter();
        assert Closed(Pkgs);
        assert Carries(t);
      }
    }

    /** truck.deliver(graph) as the undelivered packages see it: exactly the manifest leaves them. */
    method Trip(t: Truck, g: Graph) returns (r: Outcome<Error>)
      requires g.Valid() && t.Valid()
      requires t !in g.Repr && forall p :: p in t.packages ==> p !in g.Repr && p in Pkgs
      modifies t, t.packages`status, t.packages`deliveredAt, t.packages`deliveryNumber
      ensures t.Valid()
      ensures r.Pass? <==> RouteKnown(g.Dist, g.h, old(Route(t.packages))) && Distinct(old(t.packages)) &&
                           Delivered !in old(Statuses(t.packages))
      ensures r.Pass? ==> t.packages == [] && forall p :: p in old(t.packages) ==> p.status == Delivered
      ensures r.Pass? ==> var batch := set p | p in old(t.packages);
                          batch <= old(Undone()) && Undone() == old(Undone()) - batch
    {
      ghost var ps := t.packages;
      r := t.Deliver(g);
      if r.Pass? {
        TripLeaves(set p | p in ps);
      }
    }

    /** The owned tables stay valid while nothing they are made of changes. */
    twostate lemma OwnedAfter()
      requires old(Owned()) && unchanged(this) && unchanged(old(Repr))
      ensures Owned()
    {
    }

    /**
     * p.is_available(t) with the default argument: the set it threads is the
     * one shared by all such calls.
     */
    method IsAvailableFor(p: Package, t: Truck) returns (ok: bool)
      requires Valid() && p in Pkgs
      modifies shared
      ensures ok ==> p.Eligible(t.id, t.Time())
      ensures old(shared.items) <= shared.items <= old(shared.items) + Pkgs
      ensures !p.Eligible(t.id, t.Time()) ==> !ok && shared.items == old(shared.items)
      ensures p.Eligible(t.id, t.Time()) && (forall d :: d in p.associated ==> d in old(shared.items) + {p}) ==> ok
      ensures (ok, shared.items) == old(Availability(p, t.id, t.Time(), shared.items, Pkgs))
    {
      var excluded;
      ok, excluded := p.IsAvailable(t.id, t.Time(), shared.items, Pkgs);
      shared.items := excluded;
    }

    /** get_remaining: the undelivered packages among the table's items; a missing bucket raises. */
    method GetRemaining() returns (r: Result<nat, Error>)
      requires Valid()
      ensures r.Err? <==> !NoMissingBucket(packages.buckets[..])
      ensures r.Ok? ==> r.value == Undelivered(Flatten(packages.buckets[..]))
    {
      var items := packages.Iter();
      if items.Err? {
        return Err(items.error);
      }
      var total := CountUndelivered(items.value);
      return Ok(total);
    }

    /** `for p in self._packages`: the table's items in bucket order, every one a package of the simulator. */
    method Items() returns (r: Result<seq<(int, Package)>, Error>)
      requires Valid()
      ensures r.Err? <==> !NoMissingBucket(packages.buckets[..])
      ensures r.Err? ==> r.error == BucketMissing
      ensures r.Ok? ==> r.value == Flatten(packages.buckets[..])
      ensures r.Ok? ==> forall k :: 0 <= k < |r.value| ==> r.value[k].1 in Pkgs
    {
      ItemsStocked();
      r := packages.Iter();
    }

    /** Every item of the package table holds a package of the simulator. */
    lemma ItemsStocked()
      requires Valid()
      ensures Stocked()
    {
      var C := packages.Contents;
      IterationExactlyOnce(packages.buckets[..], packages.hash, C);
      var items := Flatten(packages.buckets[..]);
      assert forall k :: 0 <= k < |items| ==> items[k].0 in C && C[items[k].0] == items[k].1;
      assert forall k :: k in C ==> C[k] in Pkgs;
      assert forall k :: 0 <= k < |items| ==> items[k].1 in Pkgs;
    }

    /** self._trucks.sort(key=get_mileage): the trucks in order of mileage, ties kept in list order. */
    method SortTrucks()
      requires Valid()
      modifies this`trucks
      ensures Valid() && unchanged(this`packages, this`graph, this`wrongAddress, this`Pkgs, this`Repr)
      ensures trucks == old(ByMileage(trucks))
    {
      ApartKept(ByMileage(trucks), trucks);
      trucks := ByMileage(trucks);
    }

    /** Every item of the package table is a package of the simulator. */
    ghost predicate Stocked()
      reads this`packages, this`Pkgs, packages, packages.buckets
    {
      var items := Flatten(packages.buckets[..]);
      forall k :: 0 <= k < |items| ==> items[k].1 in Pkgs
    }

    /** p is urgent for some truck and, by the checks it makes itself, available to it. */
    ghost predicate UrgentSomewhere(p: Package)
      reads this, trucks, p
    {
      UrgentFor(p, trucks)
    }

    /**
     * any([p.is_urgent(t.get_time()) and p.is_available(t) for t in trucks]):
     * every truck is asked, since the list is built in full before any()
     * looks at it, and is_available only where the package is urgent. The
     * default exclude set is threaded through as ex.
     */
    method AcceptedBySome(p: Package, ex: set<Package>) returns (found: bool, ex': set<Package>)
      requires p in Pkgs && Closed(Pkgs)
      ensures ex <= ex' <= ex + Pkgs
      ensures found ==> UrgentSomewhere(p) && p.status == AtTheHub
      ensures p.associated == [] && UrgentSomewhere(p) ==> found
      ensures found == AskTrucks(p, trucks, ex, Pkgs).0 && ex' == AskTrucks(p, trucks, ex, Pkgs).1
    {
      found, ex' := false, ex;
      for j := 0 to |trucks|
        invariant ex <= ex' <= ex + Pkgs
        invariant found == AskTrucks(p, trucks[..j], ex, Pkgs).0 && ex' == AskTrucks(p, trucks[..j], ex, Pkgs).1
        invariant found ==> UrgentSomewhere(p) && p.status == AtTheHub
        invariant p.associated == [] ==>
                    (exists k :: 0 <= k < j && p.IsUrgent(trucks[k].Time()) && p.Eligible(trucks[k].id, trucks[k].Time())) ==>
                    found
      {
        var t := trucks[j];
        assert trucks[..j + 1][..j] == trucks[..j];
        if p.IsUrgent(t.Time()) {
          var ok;
          ok, ex' := p.IsAvailable(t.id, t.Time(), ex', Pkgs);
          if ok {
            found := true;
          }
        }
      }
      assert trucks[..|trucks|] == trucks;
    }

    /**
     * The first loop of _deliver_urgent_packages over the table's items all:
     * a package any truck accepts joins the urgent set. The default exclude
     * set is threaded through as ex.
     */
    method UrgentAmong(all: seq<(int, Package)>, ex: set<Package>) returns (urgent: seq<Package>, ex': set<Package>)
      requires Closed(Pkgs) && forall k :: 0 <= k < |all| ==> all[k].1 in Pkgs
      ensures ex <= ex' <= ex + Pkgs
      ensures NoDups(urgent) && AllAtHub(urgent)
      ensures forall p :: p in urgent ==> p in Pkgs && UrgentSomewhere(p)
      ensures forall k :: 0 <= k < |all| && all[k].1.associated == [] && UrgentSomewhere(all[k].1) ==> all[k].1 in urgent
      ensures urgent == UrgentFold(all, trucks, ex, Pkgs).0 && ex' == UrgentFold(all, trucks, ex, Pkgs).1
    {
      urgent, ex' := [], ex;
      for i := 0 to |all|
        invariant urgent == UrgentFold(all[..i], trucks, ex, Pkgs).0 && ex' == UrgentFold(all[..i], trucks, ex, Pkgs).1
      {
        UrgentFoldBounds(all[..i], trucks, ex, Pkgs);
        assert all[..i + 1][..i] == all[..i] && all[..i + 1][i] == all[i];
        urgent, ex' := ConsiderUrgent(all[i].1, urgent, ex');
      }
      assert all[..|all|] == all;
      UrgentFoldBounds(all, trucks, ex, Pkgs);
    }

    /** One turn of that loop: p joins the urgent set when some truck accepts it. */
    method ConsiderUrgent(p: Package, urgent: seq<Package>, ex: set<Package>) returns (urgent': seq<Package>, ex': set<Package>)
      requires Closed(Pkgs) && p in Pkgs
      requires NoDups(urgent) && AllAtHub(urgent)
      requires forall q :: q in urgent ==> q in Pkgs && UrgentSomewhere(q)
      ensures ex <= ex' <= ex + Pkgs
      ensures NoDups(urgent') && AllAtHub(urgent') && Within(urgent, urgent')
      ensures forall q :: q in urgent' ==> q in Pkgs && UrgentSomewhere(q)
      ensures p.associated == [] && UrgentSomewhere(p) ==> p in urgent'
      ensures urgent' == (if AskTrucks(p, trucks, ex, Pkgs).0 then AddOne(urgent, p) else urgent)
      ensures ex' == AskTrucks(p, trucks, ex, Pkgs).1
    {
      var found;
      found, ex' := AcceptedBySome(p, ex);
      urgent' := urgent;
      if found {
        urgent' := AddOne(urgent, p);
      }
    }

    /**
     * The urgent set of _deliver_urgent_packages: every truck is asked about
     * every package of the table (the list inside any() is built in full),
     * is_available only when the package is urgent for that truck. A
     * missing bucket raises.
     */
    method CollectUrgent() returns (r: Result<seq<Package>, Error>, ex: set<Package>)
      requires Valid()
      ensures Undone() == old(Undone())
      ensures shared.items <= ex <= shared.items + Pkgs
      ensures r.Err? <==> !NoMissingBucket(packages.buckets[..])
      ensures r.Ok? ==> NoDups(r.value) && AllAtHub(r.value)
      ensures r.Ok? ==> forall p :: p in r.value ==> p in Pkgs && UrgentSomewhere(p)
      ensures r.Ok? ==> var items := Flatten(packages.buckets[..]);
                        forall k :: 0 <= k < |items| && items[k].1.associated == [] && UrgentSomewhere(items[k].1) ==>
                          items[k].1 in r.value
      ensures r.Ok? ==> Stocked()
      ensures r.Ok? ==> var fold := UrgentFold(Flatten(packages.buckets[..]), trucks, shared.items, Pkgs);
                        r.value == fold.0 && ex == fold.1
    {
      var items := Items();
      if items.Err? {
        return Err(items.error), shared.items;
      }
      var urgent;
      urgent, ex := UrgentAmong(items.value, shared.items);
      return Ok(urgent), ex;
    }

    /** The destinations table: valid, and listing only packages of the simulator. */
    ghost predicate Serves(dest: HashTable<string, seq<Package>>)
      reads this`Pkgs, dest, dest.Repr
    {
      dest.Valid() &&
      forall a :: a in dest.Contents ==> forall i :: 0 <= i < |dest.Contents[a]| ==> dest.Contents[a][i] in Pkgs
    }

    /** What loading keeps of the simulator's invariant for truck t: the part loads can touch. */
    ghost predicate Cargo(t: Truck)
      reads this`Pkgs, Pkgs, t
    {
      Carries(t) && Closed(Pkgs)
    }

    /**
     * One turn of the innermost loop of _deliver_urgent_packages: when the
     * truck has room and is_available accepts p, p leaves the urgent set and
     * is loaded. The default exclude set is threaded through as ex.
     */
    method LoadIfAvailable(t: Truck, p: Package, u: seq<Package>, ex: set<Package>, ghost u0: seq<Package>)
      returns (u': seq<Package>, ex': set<Package>)
      requires Cargo(t) && p in Pkgs
      requires AllAtHub(u) && Loaded(u0, u)
      modifies t, p`status, p`deliveredBy, p`loadedAt
      ensures Cargo(t) && t.mileage == old(t.mileage)
      ensures AllAtHub(u') && Loaded(u0, u') && Within(u', u) && (NoDups(u) ==> NoDups(u'))
      ensures ex <= ex'
      ensures t.packages == old(t.packages) ==> unchanged(p)
      ensures t.packages == old(t.packages) ||
              (t.packages == old(t.packages) + [p] && p !in u' && old(p.Eligible(t.id, t.Time())) && p.status == EnRoute)
      ensures old(t.IsFull()) ==> t.packages == old(t.packages) && ex' == ex
      ensures !old(t.IsFull()) ==> (t.packages == old(t.packages) + [p], ex') == old(Availability(p, t.id, t.Time(), ex, Pkgs))
      ensures Boarded(t, Pkgs)
      ensures p.associated == [] && p.Eligible(t.id, t.Time()) ==> t.IsFull()
    {
      u', ex' := u, ex;
      if !t.IsFull() {
        if p.associated == [] {
          AloneIsAvailable(p, t.id, t.Time(), ex, Pkgs);
        }
        var ok;
        ok, ex' := p.IsAvailable(t.id, t.Time(), ex, Pkgs);
        if ok {
          u' := Discard(u, p);
          var o := t.Load(p);
          assert o.Pass?;
        }
      }
    }

    /**
     * The innermost loop of _deliver_urgent_packages over same, the packages
     * for the address just loaded: each may be loaded in turn.
     */
    method LoadSameDestination(t: Truck, same: seq<Package>, u: seq<Package>, ex: set<Package>, ghost u0: seq<Package>)
      returns (u': seq<Package>, ex': set<Package>)
      requires Cargo(t) && forall i :: 0 <= i < |same| ==> same[i] in Pkgs
      requires AllAtHub(u) && Loaded(u0, u)
      modifies t, same`status, same`deliveredBy, same`loadedAt
      ensures Cargo(t) && t.mileage == old(t.mileage)
      ensures AllAtHub(u') && Loaded(u0, u') && Within(u', u) && (NoDups(u) ==> NoDups(u'))
      ensures ex <= ex'
      ensures old(t.packages) <= t.packages && OnlyLoaded(set x | x in same)
      ensures forall i :: |old(t.packages)| <= i < |t.packages| ==>
                t.packages[i] in same && t.packages[i] !in u' && var x := t.packages[i]; old(x.Eligible(t.id, t.Time()))
      ensures Boarded(t, Pkgs)
      ensures forall x :: x in same && x.associated == [] && x.Eligible(t.id, t.Time()) ==> t.IsFull()
    {
      u', ex' := u, ex;
      for i := 0 to |same|
        invariant Cargo(t) && t.mileage == old(t.mileage)
        invariant AllAtHub(u') && Loaded(u0, u') && Within(u', u) && (NoDups(u) ==> NoDups(u'))
        invariant ex <= ex'
        invariant old(t.packages) <= t.packages && OnlyLoaded(set x | x in same)
        invariant forall k :: |old(t.packages)| <= k < |t.packages| ==>
                    t.packages[k] in same && t.packages[k] !in u' && var x := t.packages[k]; old(x.Eligible(t.id, t.Time()))
        invariant Boarded(t, Pkgs)
        invariant forall k :: 0 <= k < i && same[k].associated == [] && same[k].Eligible(t.id, t.Time()) ==> t.IsFull()
      {
        var x := same[i];
        u', ex' := LoadIfAvailable(t, x, u', ex', u0);
      }
    }

    /** The graph is valid and holds neither truck t nor any package of the simulator. */
    ghost predicate Roads(t: Truck)
      reads this`graph, this`Pkgs, graph, graph.Repr
    {
      graph.Valid() && t !in graph.Repr && forall p :: p in Pkgs ==> p !in graph.Repr
    }

    /**
     * A member of the group, at the hub, leaves the urgent set and is loaded
     * (a refused load raises), and then the packages listed for its address.
     */
    method LoadWithSame(t: Truck, pkg: Package, listed: seq<Package>, u: seq<Package>, ex: set<Package>,
                        ghost u0: seq<Package>)
      returns (r: Outcome<Error>, u': seq<Package>, ex': set<Package>)
      requires Cargo(t) && pkg in Pkgs && pkg.status == AtTheHub && forall i :: 0 <= i < |listed| ==> listed[i] in Pkgs
      requires AllAtHub(u) && Loaded(u0, u)
      modifies t, Pkgs`status, Pkgs`deliveredBy, Pkgs`loadedAt
      ensures Cargo(t) && t.mileage == old(t.mileage)
      ensures AllAtHub(u') && Loaded(u0, u') && Within(u', u) && (NoDups(u) ==> NoDups(u'))
      ensures ex <= ex'
      ensures r.Pass? ==> pkg !in u'
      ensures r.Fail? ==> r.error != NoProgress
      ensures old(t.packages) <= t.packages && OnlyLoaded(Pkgs)
      ensures forall k :: |old(t.packages)| <= k < |t.packages| ==>
                var x := t.packages[k]; x == pkg || (x in listed && old(x.Eligible(t.id, t.Time())))
      ensures r.Fail? <==> old(t.IsFull()) || (old(pkg.requiredTruck).Some? && old(pkg.requiredTruck).value !in {0, t.id})
      ensures r.Pass? ==> |t.packages| > |old(t.packages)| && t.packages[|old(t.packages)|] == pkg
      ensures r.Pass? ==> forall x :: x in listed && x.associated == [] && x.Eligible(t.id, t.Time()) ==> t.IsFull()
      ensures Boarded(t, Pkgs)
    {
      u', ex' := Discard(u, pkg), ex;
      r := t.Load(pkg);
      if r.Fail? {
        return r, u, ex;
      }
      u', ex' := LoadSameDestination(t, listed, u', ex', u0);
    }

    /**
     * One member of the group: one no longer at the hub is passed over; one
     * at the hub is loaded with the packages for its address. The address
     * is looked up before the load, which leaves it as it is.
     */
    method LoadMember(t: Truck, pkg: Package, u: seq<Package>, ex: set<Package>, ghost u0: seq<Package>,
                      dest: HashTable<string, seq<Package>>, ghost g: seq<Package>)
      returns (r: Outcome<Error>, u': seq<Package>, ex': set<Package>)
      requires Cargo(t) && Roads(t) && Serves(dest) && pkg in Pkgs && pkg in g
      requires AllAtHub(u) && Loaded(u0, u)
      modifies t, Pkgs`status, Pkgs`deliveredBy, Pkgs`loadedAt
      ensures Cargo(t) && Roads(t) && Serves(dest) && t.mileage == old(t.mileage)
      ensures AllAtHub(u') && Loaded(u0, u') && Within(u', u) && (NoDups(u) ==> NoDups(u'))
      ensures ex <= ex'
      ensures r.Pass? ==> pkg !in u'
      ensures r.Fail? ==> r.error != NoProgress
      ensures old(t.packages) <= t.packages && OnlyLoaded(Pkgs)
      ensures forall k :: |old(t.packages)| <= k < |t.packages| ==>
                var x := t.packages[k]; x in g || old(Ready(x, t, dest))
      ensures old(pkg.status) != AtTheHub ==> unchanged(t) && unchanged(Pkgs) && r == Pass && u' == u && ex' == ex
      ensures r.Pass? && old(pkg.status) == AtTheHub ==> pkg in t.packages
      ensures Boarded(t, Pkgs)
    {
      if !pkg.AtTheHubNow() {
        return Pass, u, ex;
      }
      var same := dest.Get(pkg.addressZip);
      var listed := if same.Some? then same.value else [];
      assert t !in graph.Repr && t !in dest.Repr;
      r, u', ex' := LoadWithSame(t, pkg, listed, u, ex, u0);
      assert unchanged(graph.Repr);
      assert unchanged(dest.Repr);
      graph.StillValid();
      dest.StillValid();
    }

    /**
     * One turn of the loop of _deliver_urgent_packages over the group g: the
     * member nearest to the truck's location is taken out; one no longer at
     * the hub is passed over; any other is loaded with the packages for its
     * address. A failed lookup and a refused load raise.
     */
    method GroupTurn(t: Truck, g: seq<Package>, u: seq<Package>, ex: set<Package>, ghost u0: seq<Package>,
                     dest: HashTable<string, seq<Package>>)
      returns (r: Outcome<Error>, g': seq<Package>, u': seq<Package>, ex': set<Package>)
      requires Cargo(t) && Roads(t) && Serves(dest) && g != [] && forall i :: 0 <= i < |g| ==> g[i] in Pkgs
      requires AllAtHub(u) && Loaded(u0, u)
      modifies t, Pkgs`status, Pkgs`deliveredBy, Pkgs`loadedAt
      ensures Cargo(t) && Roads(t) && Serves(dest) && t.mileage == old(t.mileage)
      ensures AllAtHub(u') && Loaded(u0, u') && Within(u', u) && (NoDups(u) ==> NoDups(u'))
      ensures ex <= ex'
      ensures Within(g', g) && |g'| < |g|
      ensures r.Pass? ==> forall i :: 0 <= i < |g| && g[i] !in g' ==> g[i] !in u'
      ensures r.Pass? ==> forall i :: 0 <= i < |g| && g[i] !in g' && old(g[i].status) == AtTheHub ==> g[i] in t.packages
      ensures r.Fail? ==> r.error != NoProgress
      ensures old(t.packages) <= t.packages && OnlyLoaded(Pkgs) && Boarded(t, Pkgs)
      ensures forall k :: |old(t.packages)| <= k < |t.packages| ==>
                var x := t.packages[k]; x in g || old(Ready(x, t, dest))
    {
      var n := NearestTo(g, t.Location());
      if n.Err? {
        return Fail(n.error), [], u, ex;
      }
      var pkg := n.value.value;
      assert pkg in g;
      g' := Discard(g, pkg);
      r, u', ex' := LoadMember(t, pkg, u, ex, u0, dest, g);
    }

    /** The loop of _deliver_urgent_packages over the group of the nearest urgent package, until the group is used up. */
    method LoadGroup(t: Truck, group: seq<Package>, u: seq<Package>, ex: set<Package>, ghost u0: seq<Package>,
                     dest: HashTable<string, seq<Package>>)
      returns (r: Outcome<Error>, u': seq<Package>, ex': set<Package>)
      requires Cargo(t) && Roads(t) && Serves(dest) && forall i :: 0 <= i < |group| ==> group[i] in Pkgs
      requires AllAtHub(u) && Loaded(u0, u)
      modifies t, Pkgs`status, Pkgs`deliveredBy, Pkgs`loadedAt
      ensures Cargo(t) && Roads(t) && Serves(dest) && t.mileage == old(t.mileage)
      ensures AllAtHub(u') && Loaded(u0, u') && Within(u', u) && (NoDups(u) ==> NoDups(u'))
      ensures ex <= ex'
      ensures r.Pass? ==> forall i :: 0 <= i < |group| ==> group[i] !in u'
      ensures r.Pass? ==> forall y :: y in group && old(y.status) == AtTheHub ==> y in t.packages
      ensures r.Fail? ==> r.error != NoProgress
      ensures old(t.packages) <= t.packages && OnlyLoaded(Pkgs) && Boarded(t, Pkgs)
      ensures forall k :: |old(t.packages)| <= k < |t.packages| ==>
                var x := t.packages[k]; x in group || old(Ready(x, t, dest))
    {
      var g := group;
      u', ex', r := u, ex, Pass;
      while g != []
        invariant Cargo(t) && Roads(t) && Serves(dest) && t.mileage == old(t.mileage)
        invariant AllAtHub(u') && Loaded(u0, u') && Within(u', u) && (NoDups(u) ==> NoDups(u'))
        invariant ex <= ex'
        invariant forall i :: 0 <= i < |g| ==> g[i] in group
        invariant r.Pass? && forall i :: 0 <= i < |group| && group[i] !in g ==> group[i] !in u'
        invariant forall i :: 0 <= i < |group| && group[i] !in g && old(group[i].status) == AtTheHub ==> group[i] in t.packages
        invariant old(t.packages) <= t.packages && OnlyLoaded(Pkgs) && Boarded(t, Pkgs)
        invariant forall k :: |old(t.packages)| <= k < |t.packages| ==>
                    var x := t.packages[k]; x in group || old(Ready(x, t, dest))
        decreases |g|
      {
        r, g, u', ex' := GroupTurn(t, g, u', ex', u0, dest);
        if r.Fail? {
          return;
        }
      }
    }

    /** The urgent package nearest to loc and the group built for it. A failed lookup raises. */
    method NearestGroup(u: seq<Package>, loc: string) returns (r: Result<(Package, seq<Package>), Error>)
      requires graph.Valid() && u != []
      ensures r.Err? <==> NearestPackage(graph.Dist, graph.h, u, loc, false).Err?
      ensures r.Err? ==> r.error in {UnknownVertex, MissingDistance}
      ensures r.Ok? ==> NearestPackage(graph.Dist, graph.h, u, loc, false) == Ok(Some(r.value.0)) &&
                        r.value.0 in u && r.value.1 == Group(r.value.0)
    {
      var n := NearestTo(u, loc);
      if n.Err? {
        return Err(n.error);
      }
      var nearest := n.value.value;
      var group := GroupOf(nearest);
      return Ok((nearest, group));
    }

    /**
     * One turn of the while loop of _deliver_urgent_packages: the group of
     * the urgent package nearest to the truck is loaded when it fits. When
     * it does not fit nothing changes and Python would spin forever; that
     * is NoProgress here. A turn that passes takes at least the nearest
     * package out of the urgent set.
     */
    method UrgentTurn(t: Truck, u: seq<Package>, ex: set<Package>, ghost u0: seq<Package>,
                      dest: HashTable<string, seq<Package>>)
      returns (r: Outcome<Error>, u': seq<Package>, ex': set<Package>,
               ghost found: bool, ghost nearest: Package, ghost group: seq<Package>)
      requires Cargo(t) && Roads(t) && Serves(dest) && forall i :: 0 <= i < |u| ==> u[i] in Pkgs
      requires u != [] && NoDups(u) && AllAtHub(u) && Loaded(u0, u)
      modifies t, Pkgs`status, Pkgs`deliveredBy, Pkgs`loadedAt
      ensures Cargo(t) && Roads(t) && Serves(dest) && t.mileage == old(t.mileage)
      ensures NoDups(u') && AllAtHub(u') && Loaded(u0, u') && Within(u', u)
      ensures ex <= ex'
      ensures r.Pass? ==> |u'| < |u|
      ensures r == Fail(NoProgress) <==> found && old(t.AvailableSpace()) < |group|
      ensures r == Fail(NoProgress) ==> unchanged(t) && unchanged(Pkgs) && u' == u && ex' == ex
      ensures old(t.packages) <= t.packages && OnlyLoaded(Pkgs) && Boarded(t, Pkgs)
      ensures r.Pass? ==> found && forall y :: y in old(Pkgs) && y in group && old(y.status) == AtTheHub ==> y in t.packages
      ensures nearest in u && group == old(Group(nearest))
      ensures found <==> old(NearestPackage(graph.Dist, graph.h, u, t.Location(), false)) == Ok(Some(nearest))
      ensures forall k :: |old(t.packages)| <= k < |t.packages| ==>
                var x := t.packages[k]; x in group || old(Ready(x, t, dest))
    {
      var n := NearestGroup(u, t.Location());
      assert NearestPackage(graph.Dist, graph.h, u, t.Location(), false) ==
             old(NearestPackage(graph.Dist, graph.h, u, t.Location(), false));
      if n.Err? {
        return Fail(n.error), u, ex, false, u[0], Group(u[0]);
      }
      var (m, g) := n.value;
      assert g == old(Group(m));
      found, nearest, group := true, m, g;
      if t.AvailableSpace() < |g| {
        return Fail(NoProgress), u, ex, found, nearest, group;
      }
      r, u', ex' := LoadGroupOf(t, m, g, u, ex, u0, dest);
    }

    /** The group of an urgent package n is loaded; when that passes, n at least has left the urgent set. */
    method LoadGroupOf(t: Truck, n: Package, group: seq<Package>, u: seq<Package>, ex: set<Package>,
                       ghost u0: seq<Package>, dest: HashTable<string, seq<Package>>)
      returns (r: Outcome<Error>, u': seq<Package>, ex': set<Package>)
      requires Cargo(t) && Roads(t) && Serves(dest) && n in Pkgs && group == Group(n)
      requires n in u && NoDups(u) && AllAtHub(u) && Loaded(u0, u)
      modifies t, Pkgs`status, Pkgs`deliveredBy, Pkgs`loadedAt
      ensures Cargo(t) && Roads(t) && Serves(dest) && t.mileage == old(t.mileage)
      ensures NoDups(u') && AllAtHub(u') && Loaded(u0, u') && Within(u', u)
      ensures ex <= ex'
      ensures r.Pass? ==> |u'| < |u|
      ensures r.Pass? ==> forall y :: y in group && old(y.status) == AtTheHub ==> y in t.packages
      ensures r.Fail? ==> r.error != NoProgress
      ensures old(t.packages) <= t.packages && OnlyLoaded(Pkgs) && Boarded(t, Pkgs)
      ensures forall k :: |old(t.packages)| <= k < |t.packages| ==>
                var x := t.packages[k]; x in group || old(Ready(x, t, dest))
    {
      GroupWithin(n, Pkgs);
      GroupHoldsItsPackage(n);
      r, u', ex' := LoadGroup(t, group, u, ex, u0, dest);
      if r.Pass? {
        ShorterWithout(u', u, n);
      }
    }

    /**
     * While statuses move only away from the hub and nothing else that
     * is_available reads changes, a package eligible for t now was eligible
     * for it before.
     */
    twostate lemma EligibleKept(ts: seq<Truck>)
      requires OnlyLoaded(old(Pkgs)) && forall t :: t in ts ==> t.mileage == old(t.mileage)
      requires unchanged(old(Pkgs)`wrongAddress, old(Pkgs)`availableAt, old(Pkgs)`requiredTruck)
      ensures forall y, t :: y in old(Pkgs) && t in ts && y.Eligible(t.id, t.Time()) ==> old(y.Eligible(t.id, t.Time()))
    {
    }

    /** While no association changes, every package keeps its group. */
    twostate lemma GroupsKept()
      requires old(Closed(Pkgs)) && forall p :: p in old(Pkgs) ==> p.associated == old(p.associated)
      ensures forall n :: n in old(Pkgs) ==> Group(n) == old(Group(n))
    {
    }

    /**
     * One turn of the urgent loop, stated against sets fixed when the fill
     * began: M holds everything tied to an urgent package, R every package
     * then Ready for t. Whatever the turn loads lies in M or R, and both stay
     * closed over the new state.
     */
    method UrgentStep(t: Truck, u: seq<Package>, ex: set<Package>, ghost u0: seq<Package>,
                      dest: HashTable<string, seq<Package>>, ghost M: set<Package>, ghost R: set<Package>)
      returns (r: Outcome<Error>, u': seq<Package>, ex': set<Package>, ghost nearest: Package)
      requires Cargo(t) && Roads(t) && Serves(dest) && forall i :: 0 <= i < |u| ==> u[i] in Pkgs
      requires u != [] && NoDups(u) && AllAtHub(u) && Loaded(u0, u)
      requires TiedWithin(u, Pkgs, M) && ReadyWithin(t, Pkgs, dest, R)
      modifies t, Pkgs`status, Pkgs`deliveredBy, Pkgs`loadedAt
      ensures Cargo(t) && Roads(t) && Serves(dest) && t.mileage == old(t.mileage)
      ensures NoDups(u') && AllAtHub(u') && Loaded(u0, u') && Within(u', u)
      ensures ex <= ex' && (r.Pass? ==> |u'| < |u|)
      ensures old(t.packages) <= t.packages && OnlyLoaded(Pkgs)
      ensures TiedWithin(u', Pkgs, M) && ReadyWithin(t, Pkgs, dest, R)
      ensures forall k :: |old(t.packages)| <= k < |t.packages| ==> t.packages[k] in M + R
      ensures nearest in u
      ensures r.Pass? ==> old(NearestPackage(graph.Dist, graph.h, u, t.Location(), false)) == Ok(Some(nearest)) &&
                          forall y :: y in old(Pkgs) && y in old(Group(nearest)) && old(y.status) == AtTheHub ==> y in t.packages
    {
      ghost var found, group;
      r, u', ex', found, nearest, group := UrgentTurn(t, u, ex, u0, dest);
      forall k | |old(t.packages)| <= k < |t.packages| ensures t.packages[k] in M + R {
        var x := t.packages[k];
        if x !in group {
          assert old(Ready(x, t, dest));
        }
      }
      EligibleKept([t]);
      GroupsKept();
    }

    /**
     * The while loop of _deliver_urgent_packages for one truck: turns until
     * the truck is full or no urgent package is left. Whatever it loads lies
     * in M, which holds everything tied to an urgent package, or in R, which
     * holds every package Ready for t.
     */
    method FillUrgent(t: Truck, u: seq<Package>, ex: set<Package>, ghost u0: seq<Package>,
                      dest: HashTable<string, seq<Package>>, ghost M: set<Package>, ghost R: set<Package>)
      returns (r: Outcome<Error>, u': seq<Package>, ex': set<Package>)
      requires Cargo(t) && Roads(t) && Serves(dest) && forall i :: 0 <= i < |u| ==> u[i] in Pkgs
      requires NoDups(u) && AllAtHub(u) && Loaded(u0, u)
      requires TiedWithin(u, Pkgs, M) && ReadyWithin(t, Pkgs, dest, R)
      modifies t, Pkgs`status, Pkgs`deliveredBy, Pkgs`loadedAt
      ensures Cargo(t) && Roads(t) && Serves(dest) && t.mileage == old(t.mileage)
      ensures NoDups(u') && AllAtHub(u') && Loaded(u0, u') && Within(u', u)
      ensures ex <= ex'
      ensures r.Pass? ==> t.IsFull() || u' == []
      ensures old(t.IsFull()) ==> t.IsFull()
      ensures old(t.packages) <= t.packages && OnlyLoaded(Pkgs)
      ensures TiedWithin(u', Pkgs, M) && ReadyWithin(t, Pkgs, dest, R)
      ensures forall k :: |old(t.packages)| <= k < |t.packages| ==> t.packages[k] in M + R
    {
      u', ex' := u, ex;
      r := Pass;
      while !t.IsFull() && u' != []
        invariant Cargo(t) && Roads(t) && Serves(dest) && t.mileage == old(t.mileage)
        invariant old(t.IsFull()) ==> t.IsFull()
        invariant NoDups(u') && AllAtHub(u') && Loaded(u0, u') && Within(u', u)
        invariant ex <= ex'
        invariant old(t.packages) <= t.packages && OnlyLoaded(Pkgs)
        invariant TiedWithin(u', Pkgs, M) && ReadyWithin(t, Pkgs, dest, R)
        invariant forall k :: |old(t.packages)| <= k < |t.packages| ==> t.packages[k] in M + R
        decreases |u'|
      {
        ghost var nearest;
        r, u', ex', nearest := UrgentStep(t, u', ex', u0, dest, M, R);
        if r.Fail? {
          return;
        }
      }
    }

    /** Every truck of ts is valid, carries only packages of the simulator and is apart from the graph. */
    ghost predicate Drivable(ts: seq<Truck>)
      reads this`Pkgs, this`graph, graph, ts
    {
      forall k :: 0 <= k < |ts| ==> Carries(ts[k]) && ts[k] !in graph.Repr
    }

    /**
     * The for loop of _deliver_urgent_packages over the trucks ts, in their
     * order: each is filled with urgent packages in turn. When urgent
     * packages are left over, every truck is full. Each truck only gains
     * packages, and each one it gains was, when the loop began, tied to an
     * urgent package or Ready for that truck.
     */
    method FillTrucks(ts: seq<Truck>, u: seq<Package>, ex: set<Package>, ghost u0: seq<Package>,
                      dest: HashTable<string, seq<Package>>)
      returns (r: Outcome<Error>, u': seq<Package>, ex': set<Package>)
      requires Drivable(ts) && graph.Valid() && (forall p :: p in Pkgs ==> p !in graph.Repr)
      requires Closed(Pkgs) && Serves(dest) && forall i :: 0 <= i < |u| ==> u[i] in Pkgs
      requires NoDups(u) && AllAtHub(u) && Loaded(u0, u)
      modifies ts, Pkgs
      ensures Drivable(ts) && graph.Valid() && Closed(Pkgs) && Serves(dest)
      ensures NoDups(u') && AllAtHub(u') && Loaded(u0, u') && Within(u', u)
      ensures ex <= ex'
      ensures r.Pass? ==> u' == [] || forall k :: 0 <= k < |ts| ==> ts[k].IsFull()
      ensures Gained(ts, old(Holds(ts)), old(Members(u)), old(ReadySet(ts, Pkgs, dest)))
      ensures OnlyLoaded(Pkgs)
    {
      ghost var M := Members(u);
      ghost var RP := ReadySet(ts, Pkgs, dest);
      ghost var P0 := Holds(ts);
      u', ex', r := u, ex, Pass;
      for i := 0 to |ts|
        invariant Drivable(ts) && graph.Valid() && Closed(Pkgs) && Serves(dest)
        invariant NoDups(u') && AllAtHub(u') && Loaded(u0, u') && Within(u', u)
        invariant ex <= ex'
        invariant u' != [] ==> forall k :: 0 <= k < i ==> ts[k].IsFull()
        invariant TiedWithin(u', Pkgs, M) && ReadyPairs(ts, Pkgs, dest, RP) && Gained(ts, P0, M, RP)
        invariant OnlyLoaded(Pkgs)
      {
        r, u', ex' := FillTruck(ts, i, u', ex', u0, dest, M, RP, P0);
        if r.Fail? {
          return;
        }
      }
    }

    /**
     * Truck ts[i] is filled; when urgent packages are left over, it is full
     * like those before it. What it gains lies in M or is paired with it in RP.
     */
    method FillTruck(ts: seq<Truck>, i: nat, u: seq<Package>, ex: set<Package>, ghost u0: seq<Package>,
                     dest: HashTable<string, seq<Package>>, ghost M: set<Package>, ghost RP: set<(Package, Truck)>,
                     ghost P0: seq<seq<Package>>)
      returns (r: Outcome<Error>, u': seq<Package>, ex': set<Package>)
      requires i < |ts| && Drivable(ts) && graph.Valid() && (forall p :: p in Pkgs ==> p !in graph.Repr)
      requires Closed(Pkgs) && Serves(dest) && forall i :: 0 <= i < |u| ==> u[i] in Pkgs
      requires NoDups(u) && AllAtHub(u) && Loaded(u0, u)
      requires u != [] ==> forall k :: 0 <= k < i ==> ts[k].IsFull()
      requires TiedWithin(u, Pkgs, M) && ReadyPairs(ts, Pkgs, dest, RP) && Gained(ts, P0, M, RP)
      modifies ts[i], Pkgs`status, Pkgs`deliveredBy, Pkgs`loadedAt
      ensures Drivable(ts) && graph.Valid() && Closed(Pkgs) && Serves(dest)
      ensures NoDups(u') && AllAtHub(u') && Loaded(u0, u') && Within(u', u)
      ensures ex <= ex'
      ensures r.Pass? && u' != [] ==> forall k :: 0 <= k <= i ==> ts[k].IsFull()
      ensures TiedWithin(u', Pkgs, M) && ReadyPairs(ts, Pkgs, dest, RP) && Gained(ts, P0, M, RP)
      ensures OnlyLoaded(Pkgs)
    {
      ghost var R := set p | p in Pkgs && (p, ts[i]) in RP;
      r, u', ex' := FillUrgent(ts[i], u, ex, u0, dest, M, R);
      assert u' != [] ==> u'[0] in u;
      EligibleKept(ts);
      forall j | 0 <= j < |ts| && ts[j] != ts[i] ensures ts[j].packages == old(ts[j].packages) { }
    }

    /** The simulator stays valid when only its trucks and its packages' statuses have moved on. */
    twostate lemma ValidAfter()
      requires old(Valid()) && unchanged(this) && unchanged(old(Repr))
      requires Closed(Pkgs) && Drivable(trucks)
      ensures Valid()
    {
      OwnedAfter();
    }

    /**
     * The for loop of _deliver_urgent_packages over the simulator's trucks,
     * once sorted: each truck in turn is filled from the urgent set u, and
     * u' is what remains of it. Each truck only gains packages, and each
     * one it gains was, when the loop began, a member of the group of an
     * urgent package or Ready for that truck.
     */
    method FillAll(u: seq<Package>, ex: set<Package>, ghost u0: seq<Package>, dest: HashTable<string, seq<Package>>)
      returns (r: Outcome<Error>, u': seq<Package>)
      requires Valid() && Serves(dest) && forall i :: 0 <= i < |u| ==> u[i] in Pkgs
      requires NoDups(u) && AllAtHub(u) && Loaded(u0, u)
      modifies trucks, Pkgs, shared
      ensures Valid() && Serves(dest)
      ensures NoDups(u') && AllAtHub(u') && Loaded(u0, u') && Within(u', u)
      ensures ex <= shared.items
      ensures r.Pass? ==> u' == [] || forall k :: 0 <= k < |trucks| ==> trucks[k].IsFull()
      ensures trucks == old(trucks) && Gained(trucks, old(Holds(trucks)), old(Members(u)), old(ReadySet(trucks, Pkgs, dest)))
      ensures Undone() == old(Undone())
    {
      assert forall k :: 0 <= k < |trucks| ==> trucks[k] !in Repr;
      var ex';
      r, u', ex' := FillTrucks(trucks, u, ex, u0, dest);
      forall p | p in Pkgs
        ensures p in Undone() <==> p in old(Undone())
      {
      }
      shared.items := ex';
      ValidAfter();
    }

    /**
     * The part of _deliver_urgent_packages after the urgent set is known:
     * the trucks are sorted by mileage and each truck in that order is
     * filled from the urgent set; left is what remains of it.
     */
    method LoadUrgent(urgent: seq<Package>, ex: set<Package>, dest: HashTable<string, seq<Package>>) returns (r: Outcome<Error>, left: seq<Package>)
      requires Valid() && Serves(dest) && forall i :: 0 <= i < |urgent| ==> urgent[i] in Pkgs
      requires NoDups(urgent) && AllAtHub(urgent)
      modifies this`trucks, trucks, Pkgs, shared
      ensures Valid() && Serves(dest) && trucks == old(ByMileage(trucks))
      ensures forall i :: 0 <= i < |urgent| && urgent[i] !in left ==> urgent[i].status == EnRoute
      ensures Within(left, urgent) && AllAtHub(left) && ex <= shared.items
      ensures r.Pass? ==> left == [] || forall k :: 0 <= k < |trucks| ==> trucks[k].IsFull()
      ensures Undone() == old(Undone())
    {
      ghost var U0 := Undone();
      SortTrucks();
      assert Undone() == U0;
      r, left := FillAll(urgent, ex, urgent, dest);
    }

    /**
     * _deliver_urgent_packages: the urgent set is collected, the trucks are
     * sorted by mileage, and each truck in that order is filled. The
     * default exclude set is written back at the end. collected is the
     * urgent set and left what remains of it.
     */
    method DeliverUrgent(dest: HashTable<string, seq<Package>>)
      returns (r: Outcome<Error>, ghost collected: seq<Package>, ghost left: seq<Package>)
      requires Valid() && Serves(dest)
      modifies this`trucks, trucks, Pkgs, shared
      ensures forall k :: 0 <= k < |trucks| ==> trucks[k] in old(trucks)
      ensures r.Pass? ==> Valid() && Serves(dest) && trucks == old(ByMileage(trucks))
      ensures r.Pass? ==> forall i :: 0 <= i < |collected| && collected[i] !in left ==> collected[i].status == EnRoute
      ensures r.Pass? ==> Within(left, collected) && AllAtHub(left)
      ensures r.Pass? ==> left == [] || forall k :: 0 <= k < |trucks| ==> trucks[k].IsFull()
      ensures r.Pass? ==> old(NoMissingBucket(packages.buckets[..]) && Stocked())
      ensures r.Pass? ==> collected == old(UrgentFold(Flatten(packages.buckets[..]), trucks, shared.items, Pkgs).0)
      ensures Undone() == old(Undone())
    {
      ghost var U0 := Undone();
      var c, ex := CollectUrgent();
      assert Undone() == U0;
      if c.Err? {
        return Fail(c.error), [], [];
      }
      var urgent := c.value;
      collected := urgent;
      assert old(Stocked()) && collected == old(UrgentFold(Flatten(packages.buckets[..]), trucks, shared.items, Pkgs).0);
      r, left := LoadUrgent(urgent, ex, dest);
    }

    /**
     * graph.get_distance from a package's address a to loc (from loc to a when
     * outbound) where the caller compares the result with a number: an
     * unknown first vertex raises in the lookup, a missing edge (None) raises
     * in the comparison.
     */
    method LegTo(a: string, loc: string, outbound: bool) returns (r: Result<real, Error>)
      requires graph.Valid()
      ensures r == LegOf(graph.Dist, graph.h, a, loc, outbound)
    {
      var d;
      if outbound {
        d := graph.GetDistance(loc, a);
      } else {
        d := graph.GetDistance(a, loc);
      }
      if d.Err? {
        return Err(d.error);
      }
      if d.value.None? {
        return Err(MissingDistance);
      }
      return Ok(d.value.value);
    }

    /**
     * The scan of _package_nearest_to_location over the packages' addresses:
     * a leg is looked up for each address in turn and a place is taken only
     * when its leg is strictly below the best so far.
     */
    method ScanNearest(addrs: seq<string>, loc: string, outbound: bool) returns (r: Result<Option<nat>, Error>)
      requires graph.Valid()
      ensures r == NearestIn(graph.Dist, graph.h, addrs, loc, outbound)
    {
      ghost var D, gh := graph.Dist, graph.h;
      var best, shortest := 0, 0.0;
      ghost var ds: seq<real> := [];
      var i := 0;
      while i < |addrs|
        invariant i <= |addrs| && |ds| == i
        invariant Legs(D, gh, addrs[..i], loc, outbound) == Ok(ds)
        invariant i > 0 ==> best == FirstMin(ds) && shortest == ds[best]
      {
        var leg := LegTo(addrs[i], loc, outbound);
        if leg.Err? {
          ScanFails(D, gh, addrs, loc, outbound, i, ds);
          return Err(leg.error);
        }
        var x := leg.value;
        ScanExtends(D, gh, addrs, loc, outbound, i, ds, x);
        if i == 0 || x < shortest {
          best, shortest := i, x;
        }
        ds := ds + [x];
        i := i + 1;
      }
      assert addrs[..i] == addrs;
      if i == 0 {
        return Ok(None);
      }
      return Ok(Some(best));
    }

    /**
     * _package_nearest_to_location(ps, loc): the first package of ps that no
     * other is strictly nearer to loc than, measured from the package's
     * address; None for no package. A failed lookup raises.
     */
    method NearestTo(ps: seq<Package>, loc: string) returns (r: Result<Option<Package>, Error>)
      requires graph.Valid()
      ensures r == NearestPackage(graph.Dist, graph.h, ps, loc, false)
    {
      var k := ScanNearest(Addresses(ps), loc, false);
      if k.Err? {
        return Err(k.error);
      }
      if k.value.None? {
        return Ok(None);
      }
      return Ok(Some(ps[k.value.value]));
    }

    // -------------------------------------------------------------------------
    // _transport_packages
    // -------------------------------------------------------------------------

    /** The remaining_packages list of _transport_packages: the items waiting at the hub, in table order. */
    method HubPackages(items: seq<(int, Package)>) returns (remaining: seq<Package>)
      ensures remaining == Waiting(items)
    {
      remaining := [];
      for i := 0 to |items|
        invariant remaining == Waiting(items[..i])
      {
        assert items[..i + 1][..i] == items[..i];
        var p := items[i].1;
        if p.AtTheHubNow() {
          remaining := remaining + [p];
        }
      }
      assert items[..|items|] == items;
    }

    /**
     * The is_available half of the scan over remaining_packages for one truck
     * in a pass of _transport_packages: the packages that accept, in order,
     * threading the default exclude set as ex.
     */
    method AcceptedAmong(t: Truck, remaining: seq<Package>, ex: set<Package>)
      returns (accepted: seq<Package>, ex': set<Package>)
      requires Closed(Pkgs) && forall i :: 0 <= i < |remaining| ==> remaining[i] in Pkgs
      ensures ex <= ex' && Within(accepted, remaining)
      ensures forall i :: 0 <= i < |accepted| ==> accepted[i].Eligible(t.id, t.Time())
      ensures forall i :: 0 <= i < |remaining| && remaining[i].associated == [] && remaining[i].Eligible(t.id, t.Time())
                ==> remaining[i] in accepted
      ensures accepted == AcceptedFold(remaining, t.id, t.Time(), ex, Pkgs).0
      ensures ex' == AcceptedFold(remaining, t.id, t.Time(), ex, Pkgs).1
    {
      accepted, ex' := [], ex;
      for i := 0 to |remaining|
        invariant ex <= ex' && Within(accepted, remaining)
        invariant accepted == AcceptedFold(remaining[..i], t.id, t.Time(), ex, Pkgs).0
        invariant ex' == AcceptedFold(remaining[..i], t.id, t.Time(), ex, Pkgs).1
        invariant forall k :: 0 <= k < |accepted| ==> accepted[k].Eligible(t.id, t.Time())
        invariant forall k :: 0 <= k < i && remaining[k].associated == [] && remaining[k].Eligible(t.id, t.Time())
                    ==> remaining[k] in accepted
      {
        var p := remaining[i];
        assert remaining[..i + 1][..i] == remaining[..i];
        if p.associated == [] {
          AloneIsAvailable(p, t.id, t.Time(), ex', Pkgs);
        }
        var ok;
        ok, ex' := p.IsAvailable(t.id, t.Time(), ex', Pkgs);
        if ok {
          accepted := accepted + [p];
        }
      }
      assert remaining[..|remaining|] == remaining;
    }

    /**
     * The scan over remaining_packages for one truck in a pass of
     * _transport_packages: the packages that accept is_available count
     * towards the total, and the first of them strictly nearest to the
     * truck's location, measured outbound from it, is chosen.
     */
    method ScanAvailable(t: Truck, remaining: seq<Package>, ex: set<Package>)
      returns (r: Result<Option<Package>, Error>, count: nat, ex': set<Package>, ghost accepted: seq<Package>)
      requires graph.Valid() && Closed(Pkgs) && forall i :: 0 <= i < |remaining| ==> remaining[i] in Pkgs
      ensures ex <= ex'
      ensures count == |accepted| && Within(accepted, remaining)
      ensures forall i :: 0 <= i < |accepted| ==> accepted[i].Eligible(t.id, t.Time())
      ensures forall i :: 0 <= i < |remaining| && remaining[i].associated == [] && remaining[i].Eligible(t.id, t.Time())
                ==> remaining[i] in accepted
      ensures r == NearestPackage(graph.Dist, graph.h, accepted, t.Location(), true)
      ensures accepted == AcceptedFold(remaining, t.id, t.Time(), ex, Pkgs).0
    {
      var acc;
      acc, ex' := AcceptedAmong(t, remaining, ex);
      accepted, count := acc, |acc|;
      var k := ScanNearest(Addresses(acc), t.Location(), true);
      if k.Err? {
        return Err(k.error), count, ex', accepted;
      }
      if k.value.None? {
        return Ok(None), count, ex', accepted;
      }
      return Ok(Some(acc[k.value.value])), count, ex', accepted;
    }

    /**
     * One truck in a pass of _transport_packages: a full truck is passed
     * over; otherwise the package the scan picks, if any, is loaded. L is the
     * set of packages the transport has loaded so far; chosen is the package
     * loaded now.
     */
    method TruckTurn(t: Truck, remaining: seq<Package>, ex: set<Package>, ghost L: set<Package>)
      returns (r: Outcome<Error>, count: nat, ex': set<Package>, ghost chosen: Option<Package>, ghost L': set<Package>,
               ghost accepted: seq<Package>)
      requires Cargo(t) && Roads(t) && forall i :: 0 <= i < |remaining| ==> remaining[i] in Pkgs
      requires L <= Pkgs && AllEnRoute(L)
      modifies t, Pkgs
      ensures Cargo(t) && Roads(t) && t.mileage == old(t.mileage)
      ensures count == |accepted| && Within(accepted, remaining)
      ensures forall i :: 0 <= i < |accepted| ==> old(accepted[i].Eligible(t.id, t.Time()))
      ensures r.Pass? ==> old(NearestPackage(graph.Dist, graph.h, accepted, t.Location(), true)) == Ok(chosen)
      ensures L <= L' <= Pkgs && AllEnRoute(L') && ex <= ex'
      ensures old(t.IsFull()) ==> count == 0 && chosen.None? && t.packages == old(t.packages)
      ensures !old(t.IsFull()) ==> accepted == old(AcceptedFold(remaining, t.id, t.Time(), ex, Pkgs).0)
      ensures r.Fail? ==> t.packages == old(t.packages)
      ensures OnlyLoaded(Pkgs)
      ensures r.Pass? ==> (count > 0 <==> chosen.Some?)
      ensures r.Pass? && chosen.None? ==> t.packages == old(t.packages) && L' == L
      ensures r.Pass? && chosen.Some? ==>
                chosen.value in remaining && L' == L + {chosen.value} && |L'| == |L| + 1 &&
                t.packages == old(t.packages) + [chosen.value]
    {
      if t.IsFull() {
        return Pass, 0, ex, None, L, [];
      }
      r, count, ex', chosen, L', accepted := ScanAndLoad(t, remaining, ex, L);
    }

    /** The scan of a truck that is not full, then the load of the package it picks. */
    method ScanAndLoad(t: Truck, remaining: seq<Package>, ex: set<Package>, ghost L: set<Package>)
      returns (r: Outcome<Error>, count: nat, ex': set<Package>, ghost chosen: Option<Package>, ghost L': set<Package>,
               ghost accepted: seq<Package>)
      requires Cargo(t) && Roads(t) && !t.IsFull() && forall i :: 0 <= i < |remaining| ==> remaining[i] in Pkgs
      requires L <= Pkgs && AllEnRoute(L)
      modifies t, Pkgs
      ensures Cargo(t) && Roads(t) && t.mileage == old(t.mileage)
      ensures accepted == old(AcceptedFold(remaining, t.id, t.Time(), ex, Pkgs).0)
      ensures r.Fail? ==> t.packages == old(t.packages)
      ensures OnlyLoaded(Pkgs)
      ensures count == |accepted| && Within(accepted, remaining)
      ensures forall i :: 0 <= i < |accepted| ==> old(accepted[i].Eligible(t.id, t.Time()))
      ensures r.Pass? ==> old(NearestPackage(graph.Dist, graph.h, accepted, t.Location(), true)) == Ok(chosen)
      ensures L <= L' <= Pkgs && AllEnRoute(L') && ex <= ex'
      ensures r.Pass? ==> (count > 0 <==> chosen.Some?)
      ensures r.Pass? && chosen.None? ==> t.packages == old(t.packages) && L' == L
      ensures r.Pass? && chosen.Some? ==>
                chosen.value in remaining && L' == L + {chosen.value} && |L'| == |L| + 1 &&
                t.packages == old(t.packages) + [chosen.value]
    {
      var pick;
      pick, count, ex', accepted := ScanAvailable(t, remaining, ex);
      assert accepted == old(AcceptedFold(remaining, t.id, t.Time(), ex, Pkgs).0);
      assert pick == old(NearestPackage(graph.Dist, graph.h, accepted, t.Location(), true));
      assert forall i :: 0 <= i < |accepted| ==> old(accepted[i].Eligible(t.id, t.Time()));
      r, chosen, L' := LoadChosen(t, pick, L);
    }

    /** What the scan returned decides the turn: an error is raised, no pick loads nothing, a pick is loaded. */
    method LoadChosen(t: Truck, pick: Result<Option<Package>, Error>, ghost L: set<Package>)
      returns (r: Outcome<Error>, ghost chosen: Option<Package>, ghost L': set<Package>)
      requires Cargo(t) && Roads(t) && !t.IsFull() && L <= Pkgs && AllEnRoute(L)
      requires pick.Ok? && pick.value.Some? ==> pick.value.value in Pkgs && pick.value.value.Eligible(t.id, t.Time())
      modifies t, Pkgs
      ensures Cargo(t) && Roads(t) && t.mileage == old(t.mileage)
      ensures r.Fail? <==> pick.Err?
      ensures r.Fail? ==> r.error == pick.error
      ensures chosen == if pick.Ok? then pick.value else None
      ensures L <= L' <= Pkgs && AllEnRoute(L') && OnlyLoaded(Pkgs)
      ensures chosen.None? ==> t.packages == old(t.packages) && L' == L
      ensures chosen.Some? ==> L' == L + {chosen.value} && |L'| == |L| + 1 && t.packages == old(t.packages) + [chosen.value]
    {
      if pick.Err? {
        return Fail(pick.error), None, L;
      }
      if pick.value.None? {
        return Pass, None, L;
      }
      var p := pick.value.value;
      L' := LoadPick(t, p, L);
      r, chosen := Pass, Some(p);
    }

    /** truck.load of a package is_available accepted: it goes through, and the package joins L. */
    method LoadPick(t: Truck, p: Package, ghost L: set<Package>) returns (ghost L': set<Package>)
      requires Cargo(t) && Roads(t) && !t.IsFull() && p in Pkgs && p.Eligible(t.id, t.Time())
      requires L <= Pkgs && AllEnRoute(L)
      modifies t, p
      ensures Cargo(t) && Roads(t) && t.mileage == old(t.mileage)
      ensures L' == L + {p} && |L'| == |L| + 1 && L' <= Pkgs && AllEnRoute(L')
      ensures t.packages == old(t.packages) + [p] && OnlyLoaded(Pkgs)
    {
      assert p !in L;
      assert t !in graph.Repr && p !in graph.Repr;
      var o := t.Load(p);
      assert o.Pass?;
      assert unchanged(graph.Repr);
      graph.StillValid();
      L' := L + {p};
    }

    /** Truck ts[i] takes its turn in a pass. */
    method PassTruck(ts: seq<Truck>, i: nat, remaining: seq<Package>, ex: set<Package>, ghost L: set<Package>,
                     ghost A: set<Package>)
      returns (r: Outcome<Error>, count: nat, ex': set<Package>, ghost L': set<Package>)
      requires i < |ts| && Drivable(ts) && graph.Valid() && (forall p :: p in Pkgs ==> p !in graph.Repr)
      requires Closed(Pkgs) && forall j :: 0 <= j < |remaining| ==> remaining[j] in Pkgs && remaining[j] in A
      requires L <= Pkgs && AllEnRoute(L) && AboardIn(ts, A)
      modifies ts[i], Pkgs
      ensures Drivable(ts) && graph.Valid() && Closed(Pkgs)
      ensures L <= L' <= Pkgs && AllEnRoute(L') && ex <= ex'
      ensures r.Pass? && count > 0 ==> |L'| == |L| + 1
      ensures AboardIn(ts, A) && OnlyLoaded(Pkgs)
      ensures forall j :: 0 <= j < |ts| ==> old(ts[j].packages) <= ts[j].packages
    {
      r, count, ex', L' := TakeTurn(ts[i], remaining, ex, L, A);
      assert forall j :: 0 <= j < |ts| && ts[j] != ts[i] ==> ts[j].packages == old(ts[j].packages);
    }

    /** A turn of truck t, seen from the pass: the manifest only grows, and only with packages of A. */
    method TakeTurn(t: Truck, remaining: seq<Package>, ex: set<Package>, ghost L: set<Package>, ghost A: set<Package>)
      returns (r: Outcome<Error>, count: nat, ex': set<Package>, ghost L': set<Package>)
      requires Cargo(t) && Roads(t) && forall j :: 0 <= j < |remaining| ==> remaining[j] in Pkgs && remaining[j] in A
      requires L <= Pkgs && AllEnRoute(L) && forall k :: 0 <= k < |t.packages| ==> t.packages[k] in A
      modifies t, Pkgs
      ensures Cargo(t) && Roads(t)
      ensures L <= L' <= Pkgs && AllEnRoute(L') && ex <= ex'
      ensures r.Pass? && count > 0 ==> |L'| == |L| + 1
      ensures old(t.packages) <= t.packages && OnlyLoaded(Pkgs)
      ensures forall k :: 0 <= k < |t.packages| ==> t.packages[k] in A
    {
      ghost var chosen, accepted;
      r, count, ex', chosen, L', accepted := TruckTurn(t, remaining, ex, L);
    }

    /**
     * One pass of the sharing loop of _transport_packages: every truck in
     * list order takes its turn. total counts the packages that accepted
     * over the whole pass; when it is positive, some package was loaded.
     */
    method SharePass(ts: seq<Truck>, remaining: seq<Package>, ex: set<Package>, ghost L: set<Package>,
                     ghost A: set<Package>)
      returns (r: Outcome<Error>, total: nat, ex': set<Package>, ghost L': set<Package>)
      requires Drivable(ts) && graph.Valid() && (forall p :: p in Pkgs ==> p !in graph.Repr)
      requires Closed(Pkgs) && forall j :: 0 <= j < |remaining| ==> remaining[j] in Pkgs && remaining[j] in A
      requires L <= Pkgs && AllEnRoute(L) && AboardIn(ts, A)
      modifies ts, Pkgs
      ensures Drivable(ts) && graph.Valid() && Closed(Pkgs)
      ensures L <= L' <= Pkgs && AllEnRoute(L') && ex <= ex'
      ensures r.Pass? && total > 0 ==> |L| < |L'|
      ensures AboardIn(ts, A) && OnlyLoaded(Pkgs)
      ensures forall j :: 0 <= j < |ts| ==> old(ts[j].packages) <= ts[j].packages
    {
      r, total, ex', L' := Pass, 0, ex, L;
      for i := 0 to |ts|
        invariant Drivable(ts) && graph.Valid() && Closed(Pkgs)
        invariant L <= L' <= Pkgs && AllEnRoute(L') && ex <= ex'
        invariant total > 0 ==> |L| < |L'|
        invariant AboardIn(ts, A) && OnlyLoaded(Pkgs)
        invariant forall j :: 0 <= j < |ts| ==> old(ts[j].packages) <= ts[j].packages
      {
        var count;
        ghost var before := L';
        SubsetCard(L, before);
        r, count, ex', L' := PassTruck(ts, i, remaining, ex', L', A);
        if r.Fail? {
          return;
        }
        SubsetCard(before, L');
        total := total + count;
      }
    }

    /**
     * The sharing loop of _transport_packages: passes are made until one
     * counts at most two accepting packages (the count starts at infinity,
     * so there is at least one pass). Every pass that counts more loads a
     * package that was at the hub, so the loop ends; total is the count of
     * the last pass.
     */
    method Share(ts: seq<Truck>, remaining: seq<Package>, ex: set<Package>, ghost A: set<Package>)
      returns (r: Outcome<Error>, ex': set<Package>, ghost total: nat)
      requires Drivable(ts) && graph.Valid() && (forall p :: p in Pkgs ==> p !in graph.Repr)
      requires Closed(Pkgs) && forall j :: 0 <= j < |remaining| ==> remaining[j] in Pkgs && remaining[j] in A
      requires AboardIn(ts, A)
      modifies ts, Pkgs
      ensures Drivable(ts) && graph.Valid() && Closed(Pkgs) && ex <= ex'
      ensures r.Pass? ==> total <= 2
      ensures AboardIn(ts, A) && OnlyLoaded(Pkgs)
      ensures forall j :: 0 <= j < |ts| ==> old(ts[j].packages) <= ts[j].packages
    {
      ghost var L: set<Package> := {};
      var first, count := true, 0;
      r, ex' := Pass, ex;
      while first || count > 2
        invariant Drivable(ts) && graph.Valid() && Closed(Pkgs) && ex <= ex'
        invariant L <= Pkgs && AllEnRoute(L) && |L| <= |Pkgs|
        invariant AboardIn(ts, A) && OnlyLoaded(Pkgs)
        invariant forall j :: 0 <= j < |ts| ==> old(ts[j].packages) <= ts[j].packages
        invariant !first ==> r.Pass?
        decreases 2 * (|Pkgs| - |L|) + (if first then 2 else if count > 2 then 1 else 0)
      {
        ghost var before := L;
        r, count, ex', L := SharePass(ts, remaining, ex', L, A);
        if r.Fail? {
          return r, ex', count;
        }
        SubsetCard(before, L);
        SubsetCard(L, Pkgs);
        first := false;
      }
      total := count;
    }

    /**
     * Share over the simulator's own trucks, keeping the simulator valid; the
     * default exclude set is written back. Only packages waiting at the hub
     * change status, and every manifest keeps what it held and may grow.
     */
    method ShareAll(remaining: seq<Package>, ghost A: set<Package>) returns (r: Outcome<Error>)
      requires Valid() && forall j :: 0 <= j < |remaining| ==> remaining[j] in Pkgs && remaining[j] in A
      requires AboardIn(trucks, A)
      modifies trucks, Pkgs, shared
      ensures Valid() && old(shared.items) <= shared.items
      ensures AboardIn(trucks, A) && OnlyLoaded(Pkgs)
      ensures forall j :: 0 <= j < |trucks| ==> old(trucks[j].packages) <= trucks[j].packages
    {
      assert forall k :: 0 <= k < |trucks| ==> trucks[k] !in Repr;
      var ex;
      ghost var total;
      r, ex, total := Share(trucks, remaining, shared.items, A);
      assert unchanged(Repr);
      OwnedAfter();
      shared.items := ex;
    }

    /** The list of packages with a wrong address, built from the table's items. */
    method MisaddressedAmong(items: seq<(int, Package)>) returns (wrong: seq<Package>)
      ensures wrong == Misaddressed(items)
    {
      wrong := [];
      for i := 0 to |items|
        invariant wrong == Misaddressed(items[..i])
      {
        assert items[..i + 1][..i] == items[..i];
        var p := items[i].1;
        if p.wrongAddress {
          wrong := wrong + [p];
        }
      }
      assert items[..|items|] == items;
    }

    /** _packages_with_wrong_address is built on the first transport only, from the table's items. */
    method SetWrongAddress(items: seq<(int, Package)>)
      requires Valid() && forall k :: 0 <= k < |items| ==> items[k].1 in Pkgs
      modifies this`wrongAddress
      ensures Valid() && wrongAddress.Some?
      ensures old(wrongAddress).Some? ==> wrongAddress == old(wrongAddress)
      ensures old(wrongAddress).None? ==> wrongAddress == Some(Misaddressed(items))
    {
      if wrongAddress.None? {
        var wrong := MisaddressedAmong(items);
        MisaddressedMembers(items);
        wrongAddress := Some(wrong);
      }
    }

    /**
     * The sweep over the simulator's wrong-address list at time, keeping the
     * simulator valid: the packages in updated get the corrected address and
     * leave the list, and every other package is left as it was.
     */
    method SweepWrong(time: real) returns (ghost updated: set<Package>)
      requires Valid() && wrongAddress.Some?
      modifies this`wrongAddress, wrongAddress.value
      ensures Valid() && wrongAddress.Some?
      ensures (wrongAddress.value, updated) == SweepFrom(old(wrongAddress.value), old(ReadyIn(wrongAddress.value, time)), 0)
      ensures forall p :: p in old(wrongAddress.value) && p in updated ==>
                !p.wrongAddress && p.addressZip == CorrectedAddressZip &&
                p.status == old(p.status) && p.associated == old(p.associated)
      ensures forall p :: p in old(wrongAddress.value) && p !in updated ==> unchanged(p)
      ensures forall p :: p in Pkgs ==> p.status == old(p.status)
    {
      var xs := wrongAddress.value;
      assert forall p :: p in xs ==> p in Pkgs && p !in Repr;
      var xs';
      xs', updated := SweepWrongAddresses(xs, time);
      forall q | q in Pkgs ensures q.associated == old(q.associated) {
        if q in xs && q in updated {
        } else if q in xs {
          assert unchanged(q);
        }
      }
      assert unchanged(Repr);
      OwnedAfter();
      SweepUpdatesReady(xs, old(ReadyIn(xs, time)), 0);
      wrongAddress := Some(xs');
    }

    /**
     * A truck's trip as the delivery loop sees it: the packages aboard, batch,
     * are as many as the manifest was long, none of them was delivered, and
     * exactly they leave the undelivered packages.
     */
    method DeliverLoad(t: Truck) returns (r: Outcome<Error>, ghost batch: set<Package>)
      requires Valid() && t in trucks
      modifies t, t.packages
      ensures batch == set p | p in old(t.packages)
      ensures r.Pass? ==> Valid() && t.packages == [] && |batch| == old(|t.packages|)
      ensures r.Pass? ==> batch <= old(Undone()) && Undone() == old(Undone()) - batch
    {
      ghost var ps := t.packages;
      batch := set p | p in ps;
      r := DeliverTruck(t);
      if r.Pass? {
        DistinctCard(ps);
      }
    }

    /** Packages of batch delivered on this trip and no other status changed: exactly batch leaves the undelivered packages. */
    twostate lemma TripLeaves(batch: set<Package>)
      requires unchanged(this`Pkgs)
      requires forall p :: p in batch ==> p in old(Pkgs) && old(p.status) != Delivered && p.status == Delivered
      requires forall p :: p in old(Pkgs) && p !in batch ==> p.status == old(p.status)
      ensures batch <= old(Undone()) && Undone() == old(Undone()) - batch
    {
      forall p | p in Pkgs
        ensures p in Undone() <==> p in old(Undone()) && p !in batch
      {
      }
    }

    /** The sweep as the delivery loop sees it: no package's status changes. */
    method SweepAfter(time: real)
      requires Valid() && wrongAddress.Some?
      modifies this`wrongAddress, wrongAddress.value
      ensures Valid() && wrongAddress.Some?
      ensures forall p :: p in Pkgs ==> p.status == old(p.status)
      ensures Undone() == old(Undone())
    {
      ghost var updated := SweepWrong(time);
    }

    /** One truck of the delivery loop of _transport_packages: it counts its load, makes its trip, and the sweep follows. */
    method DeliverOne(k: nat) returns (r: Outcome<Error>, n: nat, ghost batch: set<Package>)
      requires Valid() && k < |trucks| && wrongAddress.Some?
      modifies trucks[k], trucks[k].packages, this`wrongAddress, wrongAddress.value
      ensures n == old(|trucks[k].packages|) && batch == set p | p in old(trucks[k].packages)
      ensures r.Pass? ==> Valid() && wrongAddress.Some? && trucks[k].packages == []
      ensures r.Pass? ==> forall j :: 0 <= j < |trucks| && j != k ==> trucks[j].packages == old(trucks[j].packages)
      ensures r.Pass? ==> |batch| == n && batch <= old(Undone()) && Undone() == old(Undone()) - batch
    {
      n := |trucks[k].packages|;
      r, batch := DeliverLoad(trucks[k]);
      if r.Fail? {
        return;
      }
      SweepAfter(trucks[k].Time());
    }

    /**
     * One turn of the delivery loop, seen from the loop: the first k + 1
     * trucks are now empty, the rest still hold what they held, and the
     * packages of truck k join done and leave the undelivered packages.
     */
    method DeliverStep(k: nat, ghost P0: seq<seq<Package>>, ghost S: set<Package>, ghost U0: set<Package>,
                       ghost done: set<Package>)
      returns (r: Outcome<Error>, n: nat, ghost done': set<Package>)
      requires Valid() && wrongAddress.Some? && k < |trucks| == |P0|
      requires forall j :: 0 <= j < k ==> trucks[j].packages == []
      requires forall j :: k <= j < |trucks| ==> trucks[j].packages == P0[j]
      requires forall i :: 0 <= i < |P0[k]| ==> P0[k][i] in S
      requires |done| == Sizes(P0[..k]) && done <= S && done <= U0 && Undone() == U0 - done
      modifies trucks[k], trucks[k].packages, this`wrongAddress, wrongAddress.value
      ensures n == |P0[k]|
      ensures r.Pass? ==> Valid() && wrongAddress.Some?
      ensures r.Pass? ==> forall j :: 0 <= j < k + 1 ==> trucks[j].packages == []
      ensures r.Pass? ==> forall j :: k + 1 <= j < |trucks| ==> trucks[j].packages == P0[j]
      ensures r.Pass? ==> |done'| == |done| + n == Sizes(P0[..k + 1])
      ensures r.Pass? ==> done' <= S && done' <= U0 && Undone() == U0 - done'
    {
      ghost var batch;
      r, n, batch := DeliverOne(k);
      done' := done + batch;
      if r.Pass? {
        assert batch <= S && done !! batch;
        SizesPrefix(P0, k);
      }
    }

    /**
     * The delivery loop of _transport_packages: every truck in list order
     * delivers its load, and the count of the packages sent is returned,
     * which is the sizes of the manifests before the loop added up. done is
     * the set of packages the loop delivers: as many as that count, none of
     * them delivered before, each carried by a truck (so inside any S that
     * holds every package aboard).
     */
    method DeliverAll(ghost S: set<Package>) returns (r: Result<nat, Error>, ghost done: set<Package>)
      requires Valid() && wrongAddress.Some? && AboardIn(trucks, S)
      modifies trucks, Pkgs, this`wrongAddress
      ensures r.Ok? ==> Valid() && wrongAddress.Some? && forall k :: 0 <= k < |trucks| ==> trucks[k].packages == []
      ensures r.Ok? ==> r.value == old(ManifestTotal(trucks)) == |done|
      ensures r.Ok? ==> done <= S && done <= old(Undone()) && Undone() == old(Undone()) - done
    {
      ghost var P0, U0 := Holds(trucks), Undone();
      assert forall j, i :: 0 <= j < |P0| && 0 <= i < |P0[j]| ==> P0[j][i] in S;
      var sent := 0;
      done := {};
      for k := 0 to |trucks|
        invariant Valid() && wrongAddress.Some?
        invariant forall j :: 0 <= j < k ==> trucks[j].packages == []
        invariant forall j :: k <= j < |trucks| ==> trucks[j].packages == P0[j]
        invariant sent == |done| == Sizes(P0[..k])
        invariant done <= S && done <= U0 && Undone() == U0 - done
      {
        assert Carries(trucks[k]) && forall p :: p in wrongAddress.value ==> p in Pkgs;
        var o, n;
        o, n, done := DeliverStep(k, P0, S, U0, done);
        if o.Fail? {
          return Err(o.error), done;
        }
        sent := sent + n;
      }
      assert P0[..|trucks|] == P0;
      return Ok(sent), done;
    }

    /**
     * What follows the sharing in _transport_packages: the wrong-address
     * list is built if this is the first transport, then every truck
     * delivers. The table's items are iterated once for both lists, the
     * table being unchanged in between. The count is what the trucks held,
     * and each package counted was delivered by this phase.
     */
    method DeliverPhase(items: seq<(int, Package)>, ghost S: set<Package>)
      returns (r: Result<nat, Error>, ghost done: set<Package>)
      requires Valid() && forall k :: 0 <= k < |items| ==> items[k].1 in Pkgs
      requires AboardIn(trucks, S)
      modifies trucks, Pkgs, this`wrongAddress
      ensures r.Ok? ==> Valid() && wrongAddress.Some? && forall k :: 0 <= k < |trucks| ==> trucks[k].packages == []
      ensures r.Ok? ==> r.value == old(ManifestTotal(trucks)) == |done|
      ensures r.Ok? ==> done <= S && done <= old(Undone()) && Undone() == old(Undone()) - done
    {
      SetWrongAddress(items);
      r, done := DeliverAll(S);
    }

    /**
     * _transport_packages: the packages waiting at the hub are shared among
     * the trucks, then every truck delivers its load; the number of packages
     * sent is returned. A missing bucket or an unknown distance raises.
     * The count is at least what the trucks held before, and counts
     * packages not delivered before that are delivered now; when the
     * trucks start empty, each of them was waiting at the hub.
     */
    method Transport() returns (r: Result<nat, Error>, ghost done: set<Package>)
      requires Valid()
      modifies trucks, Pkgs, shared, this`wrongAddress
      ensures r.Ok? ==> Valid() && wrongAddress.Some? && forall k :: 0 <= k < |trucks| ==> trucks[k].packages == []
      ensures r.Ok? ==> old(ManifestTotal(trucks)) <= r.value == |done|
      ensures r.Ok? ==> done <= old(Undone()) && Undone() == old(Undone()) - done
      ensures r.Ok? && (forall k :: 0 <= k < |trucks| ==> old(trucks[k].packages) == []) ==>
                done <= old(ItemPackages(Flatten(packages.buckets[..])))
    {
      var items := Items();
      if items.Err? {
        return Err(items.error), {};
      }
      r, done := ShareAndDeliver(items.value);
    }

    /** _transport_packages once the table's items are known. */
    method ShareAndDeliver(items: seq<(int, Package)>) returns (r: Result<nat, Error>, ghost done: set<Package>)
      requires Valid() && forall k :: 0 <= k < |items| ==> items[k].1 in Pkgs
      modifies trucks, Pkgs, shared, this`wrongAddress
      ensures r.Ok? ==> Valid() && wrongAddress.Some? && forall k :: 0 <= k < |trucks| ==> trucks[k].packages == []
      ensures r.Ok? ==> old(ManifestTotal(trucks)) <= r.value == |done|
      ensures r.Ok? ==> done <= old(Undone()) && Undone() == old(Undone()) - done
      ensures r.Ok? && (forall k :: 0 <= k < |trucks| ==> old(trucks[k].packages) == []) ==> done <= ItemPackages(items)
    {
      var o;
      ghost var A;
      o, A := ShareWaiting(items);
      if o.Fail? {
        return Err(o.error), {};
      }
      r, done := DeliverPhase(items, A);
    }

    /**
     * The sharing half of _transport_packages: the packages waiting at the
     * hub are shared among the trucks. No package is delivered by it, the
     * manifests only grow, and A holds every package aboard afterwards:
     * when the trucks start empty, only packages that were waiting.
     */
    method ShareWaiting(items: seq<(int, Package)>) returns (o: Outcome<Error>, ghost A: set<Package>)
      requires Valid() && forall k :: 0 <= k < |items| ==> items[k].1 in Pkgs
      modifies trucks, Pkgs, shared
      ensures o.Pass? ==> Valid() && AboardIn(trucks, A) && old(ManifestTotal(trucks)) <= ManifestTotal(trucks)
      ensures o.Pass? ==> Undone() == old(Undone())
      ensures (forall k :: 0 <= k < |trucks| ==> old(trucks[k].packages) == []) ==> A <= ItemPackages(items)
    {
      ghost var P0, U0 := Holds(trucks), Undone();
      ghost var empty := forall k :: 0 <= k < |trucks| ==> trucks[k].packages == [];
      var remaining := HubPackages(items);
      assert Holds(trucks) == P0 && Undone() == U0;
      WaitingWithin(items, Pkgs);
      if empty {
        A := set p | p in remaining;
        WaitingListed(items);
      } else {
        A := Pkgs;
        AboardPackages();
      }
      o := ShareKept(remaining, A);
    }

    /** Every package aboard a truck is a package of the simulator. */
    lemma AboardPackages()
      requires Valid()
      ensures AboardIn(trucks, Pkgs)
    {
      forall j, i | 0 <= j < |trucks| && 0 <= i < |trucks[j].packages|
        ensures trucks[j].packages[i] in Pkgs
      {
        assert Carries(trucks[j]);
      }
    }

    /** The sharing, counted: the manifests together hold no fewer packages, and none is delivered. */
    method ShareKept(remaining: seq<Package>, ghost A: set<Package>) returns (o: Outcome<Error>)
      requires Valid() && forall j :: 0 <= j < |remaining| ==> remaining[j] in Pkgs && remaining[j] in A
      requires AboardIn(trucks, A)
      modifies trucks, Pkgs, shared
      ensures Valid() && AboardIn(trucks, A)
      ensures old(ManifestTotal(trucks)) <= ManifestTotal(trucks) && Undone() == old(Undone())
    {
      ghost var P0 := Holds(trucks);
      o := ShareAll(remaining, A);
      ghost var P1 := Holds(trucks);
      forall j | 0 <= j < |P0|
        ensures |P0[j]| <= |P1[j]|
      {
        assert old(trucks[j].packages) <= trucks[j].packages;
      }
      SizesGrow(P0, P1);
      forall p | p in Pkgs
        ensures p in Undone() <==> p in old(Undone())
      {
      }
    }

    /** self._trucks = the new trucks. */
    method InstallTrucks(ts: seq<Truck>)
      requires Valid() && TrucksApart(ts) && forall k :: 0 <= k < |ts| ==> ts[k].Valid() && ts[k].packages == [] && ts[k] !in Repr
      modifies this`trucks
      ensures Valid() && trucks == ts
    {
      trucks := ts;
    }

    /** any(not truck.isempty() for truck in self._trucks). */
    method AnyLoaded() returns (b: bool)
      ensures b <==> exists k :: 0 <= k < |trucks| && !trucks[k].IsEmpty()
    {
      b := false;
      for i := 0 to |trucks|
        invariant b <==> exists k :: 0 <= k < i && !trucks[k].IsEmpty()
      {
        if !trucks[i].IsEmpty() {
          b := true;
        }
      }
    }

    /**
     * The first three lines of run: the packages, then the distances, then
     * num_trucks new trucks. A bad deadline stops the load before the
     * distances are read; a distance row that does not fit stops it before
     * the trucks are made.
     */
    method Setup(numTrucks: nat, pkgRows: seq<PackageRecord>, distRows: seq<DistanceRow>)
      returns (r: Result<HashTable<string, seq<Package>>, Error>)
      requires Valid()
      modifies this, counter
      ensures Valid() && forall p :: p in Pkgs ==> p in old(Pkgs) || fresh(p)
      ensures r.Ok? <==> (forall k :: 0 <= k < |pkgRows| ==> MinutesFromString(pkgRows[k].deadline).Some?) &&
                         Fits(Table(distRows))
      ensures r.Err? ==> r.error == if forall k :: 0 <= k < |pkgRows| ==> MinutesFromString(pkgRows[k].deadline).Some?
                                    then IndexOutOfRange else BadTime
      ensures r.Ok? ==> Serves(r.value) && graph.Dist == DistancesOf(RowKeys(h, distRows), Table(distRows)).value
      ensures r.Ok? ==> |trucks| == numTrucks && forall k :: 0 <= k < numTrucks ==> fresh(trucks[k]) && trucks[k].packages == []
    {
      r := LoadFiles(pkgRows, distRows);
      if r.Ok? {
        AddTrucks(numTrucks, r.value);
      }
    }

    /** self._trucks = [Truck() for i in range(num_trucks)]. */
    method AddTrucks(numTrucks: nat, dest: HashTable<string, seq<Package>>)
      requires Valid() && Serves(dest)
      modifies this`trucks, counter
      ensures Valid() && Serves(dest)
      ensures |trucks| == numTrucks && forall k :: 0 <= k < numTrucks ==> fresh(trucks[k]) && trucks[k].packages == []
    {
      var ts := MakeTrucks(counter, numTrucks);
      InstallTrucks(ts);
      dest.StillValid();
    }

    /** _load_packages, then _load_distances when the packages load. */
    method LoadFiles(pkgRows: seq<PackageRecord>, distRows: seq<DistanceRow>)
      returns (r: Result<HashTable<string, seq<Package>>, Error>)
      requires Valid()
      modifies this
      ensures Valid() && unchanged(this`trucks) && forall p :: p in Pkgs ==> p in old(Pkgs) || fresh(p)
      ensures r.Ok? <==> (forall k :: 0 <= k < |pkgRows| ==> MinutesFromString(pkgRows[k].deadline).Some?) &&
                         Fits(Table(distRows))
      ensures r.Err? ==> r.error == if forall k :: 0 <= k < |pkgRows| ==> MinutesFromString(pkgRows[k].deadline).Some?
                                    then IndexOutOfRange else BadTime
      ensures r.Ok? ==> Serves(r.value) && graph.Dist == DistancesOf(RowKeys(h, distRows), Table(distRows)).value
    {
      ghost var ps;
      r, ps := LoadPackages(pkgRows);
      if r.Err? {
        return;
      }
      var o := LoadDistances(distRows);
      if o.Fail? {
        return Err(o.error);
      }
    }

    /**
     * The urgent loop of run: urgent packages are loaded, and while any
     * truck then carries something the trucks are dispatched. Every pass
     * that dispatches delivers at least one package, so the loop ends.
     */
    method UrgentPhase(dest: HashTable<string, seq<Package>>) returns (r: Outcome<Error>)
      requires Valid() && Serves(dest)
      modifies this`trucks, this`wrongAddress, trucks, Pkgs, shared
      ensures forall k :: 0 <= k < |trucks| ==> trucks[k] in old(trucks)
      ensures r.Pass? ==> Valid() && |trucks| == old(|trucks|) && forall k :: 0 <= k < |trucks| ==> trucks[k].packages == []
      ensures r.Pass? ==> Undone() <= old(Undone())
    {
      while true
        invariant Valid() && Serves(dest) && |trucks| == old(|trucks|)
        invariant forall k :: 0 <= k < |trucks| ==> trucks[k] in old(trucks)
        invariant Undone() <= old(Undone())
        decreases |Undone()|
      {
        var busy := UrgentRound(dest);
        if busy.Err? {
          return Fail(busy.error);
        }
        if !busy.value {
          return Pass;
        }
      }
    }

    /**
     * One pass of the urgent loop: the urgent packages are loaded and, when
     * some truck then carries something, the trucks are dispatched. The
     * result says whether any truck was loaded.
     */
    method UrgentRound(dest: HashTable<string, seq<Package>>) returns (r: Result<bool, Error>)
      requires Valid() && Serves(dest)
      modifies this`trucks, this`wrongAddress, trucks, Pkgs, shared
      ensures forall k :: 0 <= k < |trucks| ==> trucks[k] in old(trucks)
      ensures r.Ok? ==> Valid() && Serves(dest) && |trucks| == old(|trucks|)
      ensures r == Ok(false) ==> forall k :: 0 <= k < |trucks| ==> trucks[k].packages == []
      ensures r.Ok? ==> Undone() <= old(Undone())
      ensures r == Ok(true) ==> |Undone()| < old(|Undone()|)
    {
      ghost var collected, left;
      var o;
      o, collected, left := DeliverUrgent(dest);
      if o.Fail? {
        return Err(o.error);
      }
      ghost var U1, done := Undone(), {};
      ghost var ts := trucks;
      r, done := DispatchIfLoaded(dest);
      assert trucks == ts;
      if r == Ok(true) {
        assert Undone() == U1 - done && done <= U1 && done != {};
        RemovedFewer(U1, done);
      }
    }

    /** The end of a pass of the urgent loop: the trucks are dispatched when any carries something. */
    method DispatchIfLoaded(dest: HashTable<string, seq<Package>>) returns (r: Result<bool, Error>, ghost done: set<Package>)
      requires Valid() && Serves(dest)
      modifies this`wrongAddress, trucks, Pkgs, shared
      ensures r.Ok? ==> Valid() && Serves(dest)
      ensures r.Ok? && !r.value <==> forall k :: 0 <= k < |trucks| ==> old(trucks[k].packages) == []
      ensures r.Ok? ==> forall k :: 0 <= k < |trucks| ==> trucks[k].packages == []
      ensures r.Ok? ==> done <= old(Undone()) && Undone() == old(Undone()) - done
      ensures r == Ok(true) ==> done != {}
      ensures trucks == old(trucks)
    {
      ghost var U0 := Undone();
      var busy := AnyLoaded();
      assert Undone() == U0;
      if !busy {
        assert forall k :: 0 <= k < |trucks| ==> old(trucks[k].packages) == [];
        return Ok(false), {};
      }
      ghost var k :| 0 <= k < |trucks| && !trucks[k].IsEmpty();
      assert old(trucks[k].packages) != [];
      SizesAtLeast(Holds(trucks), k);
      r, done := DispatchLoaded(dest);
    }

    /** The dispatch of a pass of the urgent loop once some truck carries something: it delivers at least one package. */
    method DispatchLoaded(dest: HashTable<string, seq<Package>>) returns (r: Result<bool, Error>, ghost done: set<Package>)
      requires Valid() && Serves(dest) && ManifestTotal(trucks) > 0
      modifies this`wrongAddress, trucks, Pkgs, shared
      ensures r.Ok? ==> r.value && Valid() && Serves(dest) && forall k :: 0 <= k < |trucks| ==> trucks[k].packages == []
      ensures r.Ok? ==> done != {} && done <= old(Undone()) && Undone() == old(Undone()) - done
      ensures trucks == old(trucks)
    {
      var sent;
      sent, done := Transport();
      if sent.Err? {
        return Err(sent.error), done;
      }
      dest.StillValid();
      return Ok(true), done;
    }

    /**
     * The drain loop of run: the trucks are dispatched and what they
     * delivered is subtracted from the count until it reaches zero. sent
     * holds what each dispatch delivered; each takes one of the given rounds.
     */
    method Drain(remaining: int, rounds: nat) returns (r: Outcome<Error>, ghost sent: seq<nat>)
      requires Valid() && forall k :: 0 <= k < |trucks| ==> trucks[k].packages == []
      modifies trucks, Pkgs, shared, this`wrongAddress
      ensures r.Pass? ==> Valid() && forall k :: 0 <= k < |trucks| ==> trucks[k].packages == []
      ensures r.Pass? ==> Total(sent) == remaining
      ensures r.Pass? && remaining == old(Undelivered(Flatten(packages.buckets[..]))) ==>
                forall p :: p in ItemPackages(Flatten(packages.buckets[..])) ==> p.status == Delivered
    {
      ghost var items := Flatten(packages.buckets[..]);
      ghost var Start := Undone();
      ghost var U0 := Start * ItemPackages(items);
      UndeliveredCovers(items, U0);
      ghost var counted := Undelivered(items);
      ghost var Done;
      r, sent, Done := Dispatches(remaining, rounds, items, U0, Start);
      if r.Pass? && remaining == counted {
        ItemsStocked();
        Drained(items, U0, Start, Done);
      }
    }

    /**
     * The loop itself: each pass dispatches the trucks once and subtracts
     * what they delivered; Done gathers the packages delivered so far, as
     * many as the passes reported, all of them items undelivered at the
     * start.
     */
    method Dispatches(remaining: int, rounds: nat, ghost items: seq<(int, Package)>, ghost U0: set<Package>,
                      ghost Start: set<Package>)
      returns (r: Outcome<Error>, ghost sent: seq<nat>, ghost Done: set<Package>)
      requires Valid() && forall k :: 0 <= k < |trucks| ==> trucks[k].packages == []
      requires Flatten(packages.buckets[..]) == items && U0 == Start * ItemPackages(items)
      requires Undone() == Start
      modifies trucks, Pkgs, shared, this`wrongAddress
      ensures r.Pass? ==> Valid() && forall k :: 0 <= k < |trucks| ==> trucks[k].packages == []
      ensures r.Pass? ==> Total(sent) == remaining && Flatten(packages.buckets[..]) == items
      ensures r.Pass? ==> Done <= U0 && |Done| == remaining && Undone() == Start - Done
    {
      Done := {};
      var left, budget := remaining, rounds;
      sent := [];
      while left != 0
        invariant Valid() && forall k :: 0 <= k < |trucks| ==> trucks[k].packages == []
        invariant left == remaining - Total(sent)
        invariant Flatten(packages.buckets[..]) == items
        invariant Done <= U0 && |Done| == Total(sent) && Undone() == Start - Done
        decreases budget
      {
        if budget == 0 {
          return Fail(OutOfRounds), sent, Done;
        }
        budget := budget - 1;
        var n;
        n, Done := DrainStep(items, U0, Start, Done);
        if n.Err? {
          return Fail(n.error), sent, Done;
        }
        assert (sent + [n.value])[..|sent|] == sent;
        sent := sent + [n.value];
        left := left - n.value;
      }
      return Pass, sent, Done;
    }

    /**
     * The end of the drain loop: when the packages delivered since the
     * drain began are no fewer than the items undelivered then, every item
     * is delivered now.
     */
    lemma Drained(items: seq<(int, Package)>, U0: set<Package>, Start: set<Package>, Done: set<Package>)
      requires forall k :: 0 <= k < |items| ==> items[k].1 in Pkgs
      requires U0 == Start * ItemPackages(items) && Done <= U0 && |U0| <= |Done|
      requires Undone() == Start - Done
      ensures forall p :: p in ItemPackages(items) ==> p.status == Delivered
    {
      assert Done == U0 by {
        if Done != U0 {
          assert U0 - (U0 - Done) == Done;
          RemovedFewer(U0, U0 - Done);
        }
      }
      forall p | p in ItemPackages(items)
        ensures p.status == Delivered
      {
        assert p in Pkgs && p !in Undone();
      }
    }

    /**
     * One pass of the drain loop as the count sees it: the packages it
     * delivers are as many as it reports, none was delivered before, and
     * each is an item of the package table that was undelivered when the
     * drain began.
     */
    method DrainStep(ghost items: seq<(int, Package)>, ghost U0: set<Package>, ghost Start: set<Package>,
                     ghost Done: set<Package>)
      returns (n: Result<nat, Error>, ghost Done': set<Package>)
      requires Valid() && forall k :: 0 <= k < |trucks| ==> trucks[k].packages == []
      requires Flatten(packages.buckets[..]) == items && U0 == Start * ItemPackages(items)
      requires Done <= U0 && Undone() == Start - Done
      modifies trucks, Pkgs, shared, this`wrongAddress
      ensures n.Ok? ==> Valid() && forall k :: 0 <= k < |trucks| ==> trucks[k].packages == []
      ensures n.Ok? ==> Flatten(packages.buckets[..]) == items
      ensures n.Ok? ==> Done <= Done' <= U0 && |Done'| == |Done| + n.value && Undone() == Start - Done'
    {
      ghost var done;
      n, done := Transport();
      Done' := Done + done;
      if n.Ok? {
        assert done <= U0 && Done !! done;
      }
    }

    /**
     * run(num_trucks): load, then the urgent loop, then the drain loop. A
     * bad deadline or a distance row that does not fit fails before any
     * truck moves; when the run finishes every truck is empty and every
     * package of the table is delivered. The drain loop may take at most
     * the given number of rounds.
     */
    method Run(numTrucks: nat, pkgRows: seq<PackageRecord>, distRows: seq<DistanceRow>, rounds: nat)
      returns (r: Outcome<Error>)
      requires Valid()
      modifies this, counter, Pkgs, shared
      ensures (exists k :: 0 <= k < |pkgRows| && MinutesFromString(pkgRows[k].deadline).None?) ==> r == Fail(BadTime)
      ensures ((forall k :: 0 <= k < |pkgRows| ==> MinutesFromString(pkgRows[k].deadline).Some?) &&
               !Fits(Table(distRows))) ==> r == Fail(IndexOutOfRange)
      ensures r.Pass? ==> Valid() && |trucks| == numTrucks && forall k :: 0 <= k < numTrucks ==> trucks[k].packages == []
      ensures r.Pass? ==> forall p :: p in ItemPackages(Flatten(packages.buckets[..])) ==> p.status == Delivered
    {
      var loaded := Setup(numTrucks, pkgRows, distRows);
      if loaded.Err? {
        return Fail(loaded.error);
      }
      r := Deliver(loaded.value, rounds);
    }

    /** The two loops of run, once everything is loaded. */
    method Deliver(dest: HashTable<string, seq<Package>>, rounds: nat) returns (r: Outcome<Error>)
      requires Valid() && Serves(dest)
      modifies this`trucks, this`wrongAddress, trucks, Pkgs, shared
      ensures r.Pass? ==> Valid() && |trucks| == old(|trucks|) && forall k :: 0 <= k < |trucks| ==> trucks[k].packages == []
      ensures r.Pass? ==> forall p :: p in ItemPackages(Flatten(packages.buckets[..])) ==> p.status == Delivered
    {
      r := UrgentPhase(dest);
      if r.Fail? {
        return;
      }
      r := DrainRemaining(rounds);
    }

    /** The drain loop of run, starting from get_remaining's count. */
    method DrainRemaining(rounds: nat) returns (r: Outcome<Error>)
      requires Valid() && forall k :: 0 <= k < |trucks| ==> trucks[k].packages == []
      modifies trucks, Pkgs, shared, this`wrongAddress
      ensures r.Pass? ==> Valid() && forall k :: 0 <= k < |trucks| ==> trucks[k].packages == []
      ensures r.Pass? ==> forall p :: p in ItemPackages(Flatten(packages.buckets[..])) ==> p.status == Delivered
    {
      var remaining := GetRemaining();
      if remaining.Err? {
        return Fail(remaining.error);
      }
      ghost var sent;
      r, sent := Drain(remaining.value, rounds);
    }
  }
}
