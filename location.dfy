/**
 * A delivery location: an immutable value whose identity is the hash of its
 * standardised "address (zip)" string.
 */
module Locations {
  import opened Common

  datatype Location = Location(addressZip: string, name: string)

  /** Location(address_zip, name_address): the address is standardised, the name kept as given. */
  function NewLocation(addressZip: string, name: string): (l: Location)
    ensures l.name == name
    ensures l.addressZip == StandardizeAddress(addressZip)
  {
    Location(StandardizeAddress(addressZip), name)
  }

  /** __hash__: the hash of the address string, `h` standing for Python's hash() on strings. */
  function Hash(h: string -> int, l: Location): int {
    h(l.addressZip)
  }

  /** __eq__ against another Location: equal hashes. */
  predicate Equals(h: string -> int, l: Location, other: Location) {
    Hash(h, l) == Hash(h, other)
  }

  /** __eq__ against a string: equal hashes, the string hashing as itself. */
  predicate EqualsString(h: string -> int, l: Location, other: string) {
    Hash(h, l) == h(other)
  }

  /** get_address, __str__ and __repr__ all return the standardised address. */
  function GetAddress(l: Location): (s: string)
    ensures s == l.addressZip
  {
    l.addressZip
  }

  /** A location equals its own address string, which is what lets lookups by address succeed. */
  lemma EqualsOwnAddress(h: string -> int, addressZip: string, name: string)
    ensures var l := NewLocation(addressZip, name);
            EqualsString(h, l, GetAddress(l)) && EqualsString(h, l, StandardizeAddress(addressZip))
  {
  }

  /** Equality by hash is an equivalence: reflexive, symmetric and transitive. */
  lemma EqualsIsEquivalence(h: string -> int, a: Location, b: Location, c: Location)
    ensures Equals(h, a, a)
    ensures Equals(h, a, b) ==> Equals(h, b, a)
    ensures Equals(h, a, b) && Equals(h, b, c) ==> Equals(h, a, c)
  {
  }

  /** Two locations built from the same address are equal whatever their names. */
  lemma SameAddressEqual(h: string -> int, addressZip: string, name1: string, name2: string)
    ensures Equals(h, NewLocation(addressZip, name1), NewLocation(addressZip, name2))
  {
  }

  /** The address of a location is a fixed point of standardisation's stripping and has no line break. */
  lemma AddressIsClean(addressZip: string, name: string)
    ensures var s := GetAddress(NewLocation(addressZip, name));
            Strip(s) == s && '\n' !in s
  {
    StandardizedHasNoNewline(addressZip);
    StandardizedIsStripped(addressZip);
  }
}
