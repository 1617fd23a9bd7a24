/**
 * What reading the package file keeps true from one row to the next: the
 * three tables it fills, the packages it has made so far and the links
 * between them, stated over the ids, addresses and named ids of the rows.
 */
module Loading {
  import opened Wrappers
  import opened Common
  import opened HashTables
  import opened Packages
  import opened Dispatch

  /** The three tables _load_packages fills: each valid, no two sharing an object. */
  ghost predicate Tables(t: HashTable<int, Package>, dest: HashTable<string, seq<Package>>,
                         assoc: HashTable<int, seq<Package>>)
    reads t, t.Repr, dest, dest.Repr, assoc, assoc.Repr
  {
    t.Valid() && dest.Valid() && assoc.Valid() &&
    t.Repr !! dest.Repr && t.Repr !! assoc.Repr && dest.Repr !! assoc.Repr
  }

  /**
   * What the tables hold once the packages ps of the first |ps| rows are
   * read, keys[k] being the address of row k and named[k] the ids its note
   * names.
   */
  ghost predicate Filled(ps: seq<Package>, keys: seq<string>, named: seq<set<int>>, t: HashTable<int, Package>,
                         dest: HashTable<string, seq<Package>>, assoc: HashTable<int, seq<Package>>)
    reads t, dest, assoc
    requires |ps| <= |keys| && |ps| <= |named|
  {
    t.Contents == ById(ps) && dest.Contents == ByAddress(ps, keys) && assoc.Contents == Associates(ps, named)
  }

  /** No package of ps is part of a table. */
  ghost predicate OutsideTables(ps: seq<Package>, t: HashTable<int, Package>, dest: HashTable<string, seq<Package>>,
                        assoc: HashTable<int, seq<Package>>)
    reads t, dest, assoc
  {
    forall k :: 0 <= k < |ps| ==> ps[k] !in t.Repr && ps[k] !in dest.Repr && ps[k] !in assoc.Repr
  }

  /** Each package of ps carries what its row gives it. */
  ghost predicate ParsedAll(rows: seq<PackageRecord>, ps: seq<Package>)
    reads ps
    requires |ps| <= |rows|
  {
    forall k {:trigger ps[k].Parsed(rows[k])} :: 0 <= k < |ps| ==> ps[k].Parsed(rows[k])
  }

  /** A package parsed from the next row extends a parsed prefix. */
  lemma ParsedGrow(rows: seq<PackageRecord>, ps: seq<Package>, p: Package)
    requires |ps| < |rows| && ParsedAll(rows, ps) && p.Parsed(rows[|ps|])
    ensures ParsedAll(rows, ps + [p])
  {
    forall k | 0 <= k < |ps| + 1 ensures (ps + [p])[k].Parsed(rows[k]) {
      if k < |ps| {
        assert (ps + [p])[k] == ps[k];
      }
    }
  }

  /** The packages of ps are associated only among themselves. */
  ghost predicate Among(ps: seq<Package>)
    reads ps
  {
    forall k, j :: 0 <= k < |ps| && 0 <= j < |ps[k].associated| ==> ps[k].associated[j] in ps
  }

  /** The packages ps of the first |ps| rows: distinct, associated among themselves as Linked says. */
  ghost predicate ReadFrom(ps: seq<Package>, ids: seq<int>, named: seq<set<int>>)
    reads ps
    requires |ps| <= |ids| && |ps| <= |named|
  {
    NoDups(ps) && Among(ps) && Links(ps, ids, named)
  }

  /**
   * Which associations there are while the last package of ps is being
   * linked: earlier pairs as Linked says; the last one and each package of
   * done, both ways.
   */
  predicate LinkedBy(ps: seq<Package>, ids: seq<int>, named: seq<set<int>>, done: seq<Package>, a: nat, b: nat)
    requires a < |ps| && b < |ps| <= |ids| && |ps| <= |named|
  {
    var n := |ps| - 1;
    if a == n then ps[b] in done else if b == n then ps[a] in done else Linked(ids, named, a, b)
  }

  /** The associations are those LinkedBy gives for done. */
  ghost predicate PartLinks(ps: seq<Package>, ids: seq<int>, named: seq<set<int>>, done: seq<Package>)
    reads ps
    requires |ps| <= |ids| && |ps| <= |named|
  {
    forall a, b :: 0 <= a < |ps| && 0 <= b < |ps| ==>
      (ps[b] in ps[a].associated <==> LinkedBy(ps, ids, named, done, a, b))
  }

  /** Before the linking of a new, unassociated package starts, nothing links it. */
  lemma StartLinks(ps: seq<Package>, ids: seq<int>, named: seq<set<int>>, p: Package)
    requires |ps| < |ids| && |ps| < |named| && Among(ps) && Links(ps, ids, named) && p !in ps && p.associated == []
    ensures PartLinks(ps + [p], ids, named, [])
  {
    var ps' := ps + [p];
    forall a, b | 0 <= a < |ps'| && 0 <= b < |ps'|
      ensures ps'[b] in ps'[a].associated <==> LinkedBy(ps', ids, named, [], a, b)
    {
      if a < |ps| && b == |ps| {
        assert p !in ps[a].associated;
      }
    }
  }

  /** Once the new package is linked with every package naming its id, the links are as Linked says. */
  lemma FinishLinks(ps: seq<Package>, ids: seq<int>, named: seq<set<int>>)
    requires 0 < |ps| <= |ids| && |ps| <= |named| && NoDups(ps)
    requires PartLinks(ps, ids, named, Naming(ps, named, ids[|ps| - 1]))
    ensures Links(ps, ids, named)
  {
    forall a, b | 0 <= a < |ps| && 0 <= b < |ps|
      ensures ps[b] in ps[a].associated <==> Linked(ids, named, a, b)
    {
      NamingLinked(ps, ids, named, a);
      NamingLinked(ps, ids, named, b);
    }
  }

  /** A prefix one longer is the prefix with the next element. */
  lemma SliceStep(q: seq<Package>, m: nat)
    requires m < |q|
    ensures q[..m + 1] == q[..m] + [q[m]]
  {
  }

  /** A set that is not empty has a member. */
  lemma HasMember(s: set<int>)
    requires s != {}
    ensures exists x :: x in s
  {
    if forall x :: x !in s {
      assert false;
    }
  }

  /** key, id and nm are the address, the id and the named ids of row r. */
  predicate RowGives(r: PackageRecord, key: string, id: int, nm: set<int>) {
    key == AddressZipOf(r) && id == r.id && nm == IdsOf(r)
  }

  /** keys, ids and named list the address, the id and the named ids of each row. */
  predicate Describes(rows: seq<PackageRecord>, keys: seq<string>, ids: seq<int>, named: seq<set<int>>) {
    |keys| == |rows| && |ids| == |rows| && |named| == |rows| &&
    forall k {:trigger RowGives(rows[k], keys[k], ids[k], named[k])} :: 0 <= k < |rows| ==>
      RowGives(rows[k], keys[k], ids[k], named[k])
  }

  /** The row tables describe the rows they are built from. */
  lemma DescribedBy(rows: seq<PackageRecord>)
    ensures Describes(rows, AddressKeys(rows), RowIds(rows), NamedBy(rows))
  {
    var keys, ids, named := AddressKeys(rows), RowIds(rows), NamedBy(rows);
    forall k | 0 <= k < |rows| ensures RowGives(rows[k], keys[k], ids[k], named[k]) {
    }
  }

  /** A package parsed from a row carries the row's id, address and named ids. */
  lemma ParsedGives(p: Package, r: PackageRecord, key: string, id: int, nm: set<int>)
    requires p.Parsed(r) && RowGives(r, key, id, nm)
    ensures p.id == id && p.addressZip == key && p.associatedIds == nm
  {
  }

  /** The first |ps| rows are read into the tables: what ReadRow keeps from one row to the next. */
  ghost predicate ReadInto(rows: seq<PackageRecord>, keys: seq<string>, ids: seq<int>, named: seq<set<int>>,
                         ps: seq<Package>, t: HashTable<int, Package>, dest: HashTable<string, seq<Package>>,
                         assoc: HashTable<int, seq<Package>>)
    reads t, t.Repr, dest, dest.Repr, assoc, assoc.Repr, ps
    requires |ps| <= |rows| && |ps| <= |keys| && |ps| <= |ids| && |ps| <= |named|
  {
    Tables(t, dest, assoc) && OutsideTables(ps, t, dest, assoc) && ParsedAll(rows, ps) &&
    Filled(ps, keys, named, t, dest, assoc) && ReadFrom(ps, ids, named)
  }

  /** A package outside the tables extends a prefix kept apart from them. */
  lemma OutsideGrow(ps: seq<Package>, p: Package, t: HashTable<int, Package>, dest: HashTable<string, seq<Package>>,
                  assoc: HashTable<int, seq<Package>>)
    requires OutsideTables(ps, t, dest, assoc) && p !in t.Repr && p !in dest.Repr && p !in assoc.Repr
    ensures OutsideTables(ps + [p], t, dest, assoc)
  {
    forall k | 0 <= k < |ps| + 1
      ensures (ps + [p])[k] !in t.Repr && (ps + [p])[k] !in dest.Repr && (ps + [p])[k] !in assoc.Repr
    {
      if k < |ps| {
        assert (ps + [p])[k] == ps[k];
      }
    }
  }

  /** Every package parsed from a row has a deadline that parses. */
  lemma ParsedTimed(rows: seq<PackageRecord>, ps: seq<Package>)
    requires |ps| <= |rows| && ParsedAll(rows, ps)
    ensures forall k :: 0 <= k < |ps| ==> MinutesFromString(rows[k].deadline).Some?
  {
    forall k | 0 <= k < |ps| ensures MinutesFromString(rows[k].deadline).Some? {
      assert ps[k].Parsed(rows[k]);
    }
  }

  /** Adding packages associated only among themselves keeps a closed set closed. */
  lemma ClosedUnion(U: set<Package>, ps: seq<Package>)
    requires Closed(U) && Among(ps)
    ensures Closed(U + set k | 0 <= k < |ps| :: ps[k])
  {
    var V := U + set k | 0 <= k < |ps| :: ps[k];
    forall q, i | q in V && 0 <= i < |q.associated| ensures q.associated[i] in V {
      if q !in U {
        var k :| 0 <= k < |ps| && ps[k] == q;
        assert ps[k].associated[i] in ps;
      }
    }
  }

  /**
   * ps are the packages made from the first |ps| rows: each carries what its
   * row gives it, and they are associated among themselves as Linked says.
   */
  ghost predicate ReadOff(rows: seq<PackageRecord>, ps: seq<Package>)
    reads ps
  {
    |ps| <= |rows| && ParsedAll(rows, ps) && ReadFrom(ps, RowIds(rows), NamedBy(rows))
  }
}
