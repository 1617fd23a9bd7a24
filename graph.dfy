/**
 * The distance graph: a hash table from each vertex to its own hash table of
 * neighbour distances. Vertices are Locations; both Locations and plain address
 * strings reach a vertex through the hash of the address, so the tables are
 * keyed by that hash.
 */
module Graphs {
  import opened Wrappers
  import opened HashTables
  import opened Locations

  /** The abstract graph: vertex key to (neighbour key to distance). */
  type Distances = map<int, map<int, real>>

  /** Python's hash() of a Location is already a hash value, which hash() leaves as it is. */
  function KeyHash(k: int): int {
    k
  }

  /** What get_distance(a, b) yields for vertex keys a and b. */
  function DistanceIn(D: Distances, a: int, b: int): (r: Result<Option<real>, Error>)
    ensures r.Err? <==> a !in D
    ensures r.Ok? && r.value.Some? <==> a in D && b in D[a]
  {
    if a !in D then Err(UnknownVertex)
    else if b in D[a] then Ok(Some(D[a][b]))
    else Ok(None)
  }

  /** The graph after add_edge(a, b, d) with both endpoints present. */
  function WithEdge(D: Distances, a: int, b: int, d: real): (r: Distances)
    requires a in D && b in D
    ensures r.Keys == D.Keys
  {
    var D1 := D[a := D[a][b := d]];
    D1[b := D1[b][a := d]]
  }

  /** After add_edge(a, b, d) the distance is d in both directions. */
  lemma EdgeReadsBack(D: Distances, a: int, b: int, d: real)
    requires a in D && b in D
    ensures DistanceIn(WithEdge(D, a, b, d), a, b) == Ok(Some(d))
    ensures DistanceIn(WithEdge(D, a, b, d), b, a) == Ok(Some(d))
  {
  }

  /** add_edge changes no distance other than those between its two endpoints. */
  lemma EdgeFrame(D: Distances, a: int, b: int, d: real, x: int, y: int)
    requires a in D && b in D
    requires !(x == a && y == b) && !(x == b && y == a)
    ensures DistanceIn(WithEdge(D, a, b, d), x, y) == DistanceIn(D, x, y)
  {
  }

  /** A second add_edge on the same pair overwrites the first weight in both directions. */
  lemma EdgeOverwrites(D: Distances, a: int, b: int, d1: real, d2: real)
    requires a in D && b in D
    ensures WithEdge(WithEdge(D, a, b, d1), a, b, d2) == WithEdge(D, a, b, d2)
  {
    var L := WithEdge(WithEdge(D, a, b, d1), a, b, d2);
    var R := WithEdge(D, a, b, d2);
    forall v | v in L ensures L[v] == R[v] {
      if v == a || v == b {
        assert L[v].Keys == R[v].Keys;
      }
    }
  }

  /** add_vertex(v) gives v no outgoing edge and leaves every other vertex's edges alone. */
  lemma VertexReset(D: Distances, v: int, x: int, y: int)
    ensures DistanceIn(D[v := map[]], v, y) == Ok(None)
    ensures x != v ==> DistanceIn(D[v := map[]], x, y) == DistanceIn(D, x, y)
  {
  }

  class Graph {
    /** Python's hash() on strings. */
    const h: string -> int
    var info: HashTable<int, HashTable<int, real>>

    ghost var Dist: Distances
    ghost var Repr: set<object>

    /** The adjacency table of vertex v is owned by v alone and stands for Dist[v]. */
    ghost predicate TableOk(v: int)
      reads this, Repr, info
      requires info in Repr && v in info.Contents
    {
      var t := info.Contents[v];
      t in Repr && t.Repr <= Repr && this !in t.Repr && t.Repr !! info.Repr &&
      t.Valid() && v in Dist && t.Contents == Dist[v]
    }

    ghost predicate Valid()
      reads this, Repr
    {
      this in Repr && info in Repr && info.Repr <= Repr && this !in info.Repr &&
      info.Valid() &&
      info.Contents.Keys == Dist.Keys &&
      (forall v :: v in info.Contents ==> TableOk(v)) &&
      (forall v, w :: v in info.Contents && w in info.Contents && v != w ==>
         info.Contents[v].Repr !! info.Contents[w].Repr)
    }

    /** Graph(): no vertex. */
    constructor (h: string -> int)
      ensures Valid() && fresh(Repr)
      ensures this.h == h && Dist == map[]
    {
      this.h := h;
      info := new HashTable(DefaultLength, KeyHash);
      Dist := map[];
      new;
      Repr := {this} + info.Repr;
    }

    /** add_vertex: the vertex gets a fresh, empty adjacency table, dropping any edges it had. */
    method AddVertex(l: Location)
      requires Valid()
      modifies Repr
      ensures Valid() && fresh(Repr - old(Repr))
      ensures Dist == old(Dist)[Hash(h, l) := map[]]
    {
      var k := Hash(h, l);
      var t := new HashTable<int, real>(DefaultLength, KeyHash);
      info.Put(k, t);
      Dist := Dist[k := map[]];
      Repr := Repr + t.Repr;
      Installed(k, t);
    }

    /** A fresh, empty table put into the vertex table for k keeps the graph valid. */
    twostate lemma Installed(k: int, new t: HashTable<int, real>)
      requires old(Valid()) && fresh(t.Repr) && t.Valid() && t.Contents == map[]
      requires info == old(info) && info.Valid() && info.Repr == old(info.Repr)
      requires info.Contents == old(info.Contents)[k := t]
      requires Dist == old(Dist)[k := map[]] && Repr == old(Repr) + t.Repr
      requires unchanged(old(Repr) - old(info.Repr) - {this})
      ensures Valid()
    {
      InstalledTables(k, t);
    }

    /** The step of Installed that re-establishes each vertex's own table. */
    twostate lemma InstalledTables(k: int, new t: HashTable<int, real>)
      requires old(Valid()) && fresh(t.Repr) && t.Valid() && t.Contents == map[]
      requires info == old(info) && info.Valid() && info.Repr == old(info.Repr)
      requires info.Contents == old(info.Contents)[k := t]
      requires Dist == old(Dist)[k := map[]] && Repr == old(Repr) + t.Repr
      requires unchanged(old(Repr) - old(info.Repr) - {this})
      ensures info in Repr && forall v :: v in info.Contents ==> TableOk(v)
    {
      forall v | v in info.Contents ensures TableOk(v) {
        if v != k {
          assert old(TableOk(v));
        }
      }
    }

    /** put on the adjacency table of vertex v. */
    method PutNeighbour(v: int, t: HashTable<int, real>, w: int, d: real)
      requires Valid() && v in info.Contents && t == info.Contents[v]
      modifies Repr
      ensures Valid() && Repr == old(Repr)
      ensures Dist == old(Dist)[v := old(Dist)[v][w := d]]
    {
      assert TableOk(v);
      t.Put(w, d);
      Dist := Dist[v := Dist[v][w := d]];
      assert info.Contents == old(info.Contents) && info.Repr == old(info.Repr);
      assert info.Valid();
      forall u | u in info.Contents ensures info.Contents[u].Repr == old(info.Contents[u].Repr) {
        if u != v {
          assert old(TableOk(u));
        }
      }
      assert TableOk(v);
      forall u | u in info.Contents && u != v ensures TableOk(u) {
        assert old(TableOk(u));
        var tu := info.Contents[u];
        assert tu.Contents == old(tu.Contents);
      }
    }

    /**
     * add_edge: the distance is put in the table of a under b, then in the
     * table of b under a. An unknown a raises before anything is written; an
     * unknown b raises after the first write.
     */
    method AddEdge(a: Location, b: Location, d: real) returns (r: Outcome<Error>)
      requires Valid()
      modifies Repr
      ensures Valid() && Repr == old(Repr)
      ensures r.Pass? <==> Hash(h, a) in old(Dist) && Hash(h, b) in old(Dist)
      ensures r.Pass? ==> Dist == WithEdge(old(Dist), Hash(h, a), Hash(h, b), d)
      ensures r.Fail? ==> r.error == UnknownVertex
      ensures Hash(h, a) !in old(Dist) ==> Dist == old(Dist)
      ensures Hash(h, a) in old(Dist) && Hash(h, b) !in old(Dist) ==>
                Dist == old(Dist)[Hash(h, a) := old(Dist)[Hash(h, a)][Hash(h, b) := d]]
    {
      var ka, kb := Hash(h, a), Hash(h, b);
      var ta := info.Get(ka);
      if ta.None? {
        return Fail(UnknownVertex);
      }
      PutNeighbour(ka, ta.value, kb, d);
      var tb := info.Get(kb);
      if tb.None? {
        return Fail(UnknownVertex);
      }
      PutNeighbour(kb, tb.value, ka, d);
      return Pass;
    }

    /** Validity depends only on the objects the graph owns. */
    twostate lemma StillValid()
      requires old(Valid()) && unchanged(this) && unchanged(old(Repr))
      ensures Valid()
    {
    }

    /** get_distance: fails on an unknown first vertex, None when there is no such edge. */
    method GetDistance(a: string, b: string) returns (r: Result<Option<real>, Error>)
      requires Valid()
      ensures r == DistanceIn(Dist, h(a), h(b))
    {
      var t := info.Get(h(a));
      if t.None? {
        return Err(UnknownVertex);
      }
      assert TableOk(h(a));
      var d := t.value.Get(h(b));
      return Ok(d);
    }
  }
}
