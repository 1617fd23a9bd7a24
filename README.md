# WGUPS routing simulator — a Dafny model

This project models the core of the WGUPS package-delivery simulator. The simulator:

- reads a table of packages and a lower-triangular table of distances between addresses;
- builds a fleet of trucks that start at the hub (`HUB`);
- delivers every package with a two-phase greedy dispatcher.

**Urgent phase.** Packages due before the end of the day that some truck may take are loaded first, together with their delivery groups. This repeats while any truck was loaded.

**Drain phase.** The trucks share out whatever still waits at the hub until the count of undelivered packages reaches zero.

Each truck drives its manifest in load order:

- from the hub to each package's address and back to the hub;
- its mileage grows by each leg;
- each package's delivery time is the truck's clock at the end of its leg.

The clock is 8:00 am plus the driving time at 18 mph.

The model follows the code file by file.

**Values.** These become datatypes and functions:

- `Common`: time formatting and address standardisation;
- `Locations`: the `Location` value;
- `Packages`: the parsing of deadlines and notes, and the brief status.

**Objects whose fields the code updates in place.** These become classes with `modifies` frames:

- `HashTables.HashTable`: a fixed array of buckets;
- `Graphs.Graph`: a hash table of hash tables;
- `Packages.Package`;
- `Trucks.Truck` and its id counter;
- `Simulation.Simulator`.

**Loops.** Each loop of the code becomes a method with its invariants. Each method is proved against a function that specifies it:

- `Flatten`, `Waiting` and `Misaddressed` for the table scans;
- `NearestPackage` for the nearest-package scan;
- `Group` for the delivery group;
- `Availability`, `AskTrucks`, `UrgentFold` and `AcceptedFold` for the availability questions;
- `Route` and `RouteLength` for a trip;
- `DistancesOf` for the distance loader;
- `ById`, `ByAddress` and `Linked` for the package loader.

**Errors.** Every exception the code can raise becomes an `Err`/`Fail` value with its own error. For example:

- a missing bucket;
- an unknown vertex;
- a missing distance compared with a number;
- a deadline that does not parse;
- a distance row that is too long;
- a full truck, or a package loaded or delivered twice.

The code has two loops that can run forever:

- the urgent loop of `_deliver_urgent_packages`, when a group does not fit;
- the drain loop of `run`, when a round delivers nothing.

The first ends the turn with `Fail(NoProgress)`. The second takes a number of `rounds` and ends with `Fail(OutOfRounds)`.

`wrappers.dfy` holds the `Option`, `Result` and `Outcome` types and the `Error` datatype.

## Model

| member | source | states |
|---|---|---|
| Common.EodIsMidnight | wgups_routing_app/common.py:3 | the end of the day is 1440 minutes, a whole 24 hours |
| Common.Trunc | wgups_routing_app/common.py:9 | `int()` of a float truncates toward zero, within one of the value on either sign |
| Common.Digits | wgups_routing_app/common.py:9 | `str()` of a natural is a non-empty string of decimal digits |
| Common.DigitsRoundTrip | wgups_routing_app/common.py:9 | reading back the decimal text of n gives n |
| Common.Pad2RoundTrip | wgups_routing_app/common.py:9 | the `'02'` field is at least two digits, exactly two below 100, and reads back as the number |
| Common.MinutesField | wgups_routing_app/common.py:9 | the minutes field lies in 0..59 (Python's floor modulo) |
| Common.TimeFromMinutesRoundTrip | wgups_routing_app/common.py:5-9 | for h*60+m minutes the text is h, a colon and m, each at least two digits that read back as h and m |
| Common.StripLeft | wgups_routing_app/common.py:18 | the result is a suffix of the input that does not start with whitespace |
| Common.StripRight | wgups_routing_app/common.py:18 | the result is a prefix of the input that does not end with whitespace |
| Common.Strip | wgups_routing_app/common.py:18 | the result neither starts nor ends with whitespace |
| Common.StripOfStripped | wgups_routing_app/common.py:18 | stripping a string with no outer whitespace leaves it unchanged |
| Common.Substitute | wgups_routing_app/common.py:16-18 | the substitution never lengthens the text |
| Common.SubstituteHasNoNewline | wgups_routing_app/common.py:16-18 | no line break survives the substitution |
| Common.SubstituteFirst | wgups_routing_app/common.py:16-18 | a non-space first character yields a non-space first output character |
| Common.SubstituteUnfold | wgups_routing_app/common.py:16-18 | each match consumes at least one character, writes one, and the scan resumes after it |
| Common.SubstituteLast | wgups_routing_app/common.py:16-18 | a non-space last character yields a non-space last output character |
| Common.SubstituteInertCons | wgups_routing_app/common.py:16-18 | a character that starts no match is copied and the scan goes on after it |
| Common.SubstituteInertHead | wgups_routing_app/common.py:16-18 | the same for the head of any non-empty text |
| Common.SubstituteInertPrefix | wgups_routing_app/common.py:16-18 | a prefix that starts no match is copied unchanged |
| Common.StandardizedHasNoNewline | wgups_routing_app/common.py:11-18 | a standardised address has no line break |
| Common.StandardizedIsStripped | wgups_routing_app/common.py:11-18 | a standardised address is already stripped: standardising is stable under strip |
| Common.InertAddressUnchanged | wgups_routing_app/common.py:11-18 | a stripped address with no newline or compass word is left unchanged |
| Locations.NewLocation | wgups_routing_app/models/location.py:5-8 | the name is kept as given, and the address is standardised |
| Locations.GetAddress | wgups_routing_app/models/location.py:21-34 | get_address, `__str__` and `__repr__` give the standardised address |
| Locations.EqualsOwnAddress | wgups_routing_app/models/location.py:10-19 | a location equals its own address string, so a lookup by address finds it |
| Locations.SameAddressEqual | wgups_routing_app/models/location.py:10-19 | two locations with the same address are equal, whatever their names |
| Locations.EqualsIsEquivalence | wgups_routing_app/models/location.py:10-13 | equality by hash is reflexive, symmetric and transitive |
| Locations.AddressIsClean | wgups_routing_app/models/location.py:7 | a location's address is stripped and has no line break |
| HashTables.PyIntHash | wgups_routing_app/hashtable.py:16 | Python's hash of an int is the int itself in range, and never -1 |
| HashTables.KeyPos | wgups_routing_app/hashtable.py:24-28 | the scan stops at the first pair holding the key, or at the end when none does |
| HashTables.Updated | wgups_routing_app/hashtable.py:18-35 | put overwrites the pair for the key in place, or appends one pair |
| HashTables.FindUpdatedOther | wgups_routing_app/hashtable.py:18-35 | put leaves every other key's entry in the bucket alone |
| HashTables.FindUpdatedSame | wgups_routing_app/hashtable.py:18-35 | after put the key is found with its new value |
| HashTables.PutInto | wgups_routing_app/hashtable.py:18-35 | put keeps the number of buckets |
| HashTables.PutKeepsPlaces | wgups_routing_app/hashtable.py:18-35 | after put every pair still sits in the bucket its key hashes to |
| HashTables.PutKeepsDistinct | wgups_routing_app/hashtable.py:18-35 | after put no bucket holds a key twice |
| HashTables.PutKeepsLookups | wgups_routing_app/hashtable.py:18-35 | after put every lookup answers as the dictionary `contents[k := v]` does |
| HashTables.PutKeepsWellFormed | wgups_routing_app/hashtable.py:18-35 | put keeps the representation invariant, and the buckets then stand for `contents[k := v]` |
| HashTables.IndexOf | wgups_routing_app/hashtable.py:10-16 | the bucket index of a key is within the array |
| HashTables.HashTable.Index | wgups_routing_app/hashtable.py:10-16 | the bucket index of a key is within the table's array |
| HashTables.HashTable.constructor | wgups_routing_app/hashtable.py:6-8 | a new table has the given number of buckets, every one None, and is empty |
| HashTables.HashTable.Put | wgups_routing_app/hashtable.py:18-35 | the table now stands for `Contents[k := v]`; only k's bucket changes |
| HashTables.HashTable.Get | wgups_routing_app/hashtable.py:37-50 | the value stored for the key, or None when there is none, even if its bucket was never made |
| HashTables.HashTable.Contains | wgups_routing_app/hashtable.py:52-57 | raises when the key's bucket was never made; otherwise answers whether the key is stored |
| HashTables.HashTable.Iter | wgups_routing_app/hashtable.py:59-61 | raises exactly when some bucket was never made; otherwise yields every pair, bucket by bucket |
| HashTables.StoredPair | wgups_routing_app/hashtable.py:10-35 | a stored pair hashes to its bucket and is the dictionary's entry for its key |
| HashTables.IterationExactlyOnce | wgups_routing_app/hashtable.py:59-61 | iterating yields each stored key exactly once, with its value, and nothing else |
| Graphs.DistanceIn | wgups_routing_app/graph.py:25-29 | get_distance raises exactly on an unknown first vertex, and finds a distance exactly when the edge exists |
| Graphs.WithEdge | wgups_routing_app/graph.py:17-23 | add_edge adds no vertex |
| Graphs.EdgeReadsBack | wgups_routing_app/graph.py:17-29 | after add_edge(a, b, d) the distance is d in both directions |
| Graphs.EdgeFrame | wgups_routing_app/graph.py:17-23 | add_edge changes no distance between any other pair |
| Graphs.EdgeOverwrites | wgups_routing_app/graph.py:17-23 | a second add_edge on the same pair replaces the first weight |
| Graphs.VertexReset | wgups_routing_app/graph.py:11-15 | add_vertex leaves the vertex with no edge and every other vertex as it was |
| Graphs.Graph.constructor | wgups_routing_app/graph.py:8-9 | a new graph has no vertex |
| Graphs.Graph.AddVertex | wgups_routing_app/graph.py:11-15 | the vertex gets a fresh, empty adjacency table, dropping any edges it had |
| Graphs.Graph.PutNeighbour | wgups_routing_app/graph.py:22-23 | one put on a vertex's adjacency table sets that one distance |
| Graphs.Graph.AddEdge | wgups_routing_app/graph.py:17-23 | succeeds exactly when both endpoints exist and then is WithEdge; an unknown a writes nothing; an unknown b raises after the first write |
| Graphs.Graph.GetDistance | wgups_routing_app/graph.py:25-29 | answers as DistanceIn on the graph's distances |
| Packages.MatchTimeAt | wgups_routing_app/models/package.py:210 | a match is anchored at its start, spans 7 or 8 characters, and has two-digit fields |
| Packages.SearchTime | wgups_routing_app/models/package.py:210 | finds the leftmost match, with no match before it, or reports that there is none |
| Packages.MinutesFromString | wgups_routing_app/models/package.py:205-216 | 'EOD' is 1440; other text parses exactly when a time appears in it (None where Python raises) |
| Packages.ParseTimeText | wgups_routing_app/models/package.py:205-216 | "h:mm am" is h*60+mm and "h:mm pm" is (h+12)*60+mm, in any letter case |
| Packages.KnownTimes | wgups_routing_app/models/package.py:205-216 | the deadline 'EOD' and the fixed recovery times parse to the expected minutes |
| Packages.GroupReparses | wgups_routing_app/models/package.py:73-74 | parsing a note's matched time text again gives the same minutes |
| Packages.ReparseText | wgups_routing_app/models/package.py:73-74 | text that starts with a match parses to that match's minutes |
| Packages.MatchedText | wgups_routing_app/models/package.py:73-74 | a case-sensitive match also matches at its own start when case is ignored |
| Packages.SearchTruck | wgups_routing_app/models/package.py:75-76 | `truck (\d)` yields a single digit |
| Packages.RunLength | wgups_routing_app/models/package.py:78-79 | a run of digits is maximal: all digits, and no digit follows it |
| Packages.DigitRunsOfNumber | wgups_routing_app/models/package.py:78-79 | findall reads a number's decimal text back as that one number |
| Packages.ClassifyNote | wgups_routing_app/models/package.py:68-83 | an empty note means no constraint; a time comes first when the note has one; a truck number is a digit |
| Packages.NoColonNoTime | wgups_routing_app/models/package.py:73 | a note without ':' holds no time |
| Packages.TruckNote | wgups_routing_app/models/package.py:68-83 | a note "truck N…" without a time binds the package to truck N |
| Packages.StatusAt | wgups_routing_app/models/package.py:142-150 | delivered exactly when the delivery time is reached; en route exactly when loaded but not yet delivered |
| Packages.StatusAtMonotone | wgups_routing_app/models/package.py:142-150 | the reported status only moves forward as the time grows |
| Packages.Without | wgups_routing_app/models/package.py:63 | keeps exactly the packages not in the excluded set, in order |
| Packages.AddOne | wgups_routing_app/simulator.py:110-111 | set.add: x is a member afterwards, nothing else joins, no repeats are made |
| Packages.AddAll | wgups_routing_app/simulator.py:157 | set.union: the members of both lists and nothing else, without repeats |
| Packages.Discard | wgups_routing_app/simulator.py:166 | set.discard: x leaves, every other member stays, and the list shrinks exactly when x was in it |
| Packages.Availability | wgups_routing_app/models/package.py:44-66 | is_available only ever adds to the exclude set, and only packages it can reach |
| Packages.AskAll | wgups_routing_app/models/package.py:61-66 | the loop over associates only adds to the exclude set |
| Packages.AskAllSnoc | wgups_routing_app/models/package.py:63-64 | asking one more associate gives that associate's answer, whatever came before |
| Packages.AvailableIsEligible | wgups_routing_app/models/package.py:49-59 | a package that is_available accepts passed its own checks |
| Packages.AloneIsAvailable | wgups_routing_app/models/package.py:44-66 | a package without associates is available exactly when it passes its own checks |
| Packages.LastAnswerWins | wgups_routing_app/models/package.py:61-66 | an eligible package's answer is that of the last associate asked (true when there is none) |
| Packages.NotTheConjunction | wgups_routing_app/models/package.py:61-66 | with associates [a, b], a unavailable and b eligible, is_available answers true |
| Packages.DefaultExclude.constructor | wgups_routing_app/models/package.py:44 | the shared default exclude set starts empty |
| Packages.Package.constructor | wgups_routing_app/models/package.py:12-31 | a new package holds what its row and its note give it |
| Packages.NewPackage | wgups_routing_app/models/package.py:12-31 | making a package fails with BadTime exactly when its deadline does not parse |
| Packages.Package.UrgentStaysUrgent | wgups_routing_app/models/package.py:41-42 | an urgent package stays urgent at every later time |
| Packages.Package.EligibleUrgent | wgups_routing_app/models/package.py:41-59 | an eligible package is urgent exactly when its deadline is before the end of the day |
| Packages.Package.IsAvailable | wgups_routing_app/models/package.py:44-66 | an ineligible package is refused and excludes nothing; the answer and the exclude set it leaves are those of Availability |
| Packages.Package.SetEnroute | wgups_routing_app/models/package.py:85-94 | refused when already en route or bound to another truck (0 counts as none); otherwise records truck and load time, nothing else |
| Packages.Package.CompleteDelivery | wgups_routing_app/models/package.py:96-101 | refused exactly on a delivered package; otherwise records time and trip number, nothing else |
| Packages.Package.Link | wgups_routing_app/simulator.py:110-111 | q joins the associates (set.add) and no other field changes |
| Packages.Package.UpdateAddress | wgups_routing_app/models/package.py:112-116 | the corrected address replaces the wrong one and the flag clears; nothing else changes |
| Trucks.TruckCounter.constructor | wgups_routing_app/models/truck.py:6 | the class-wide count starts at zero |
| Trucks.TruckCounter.Next | wgups_routing_app/models/truck.py:71-74 | the count goes up by one and the new count is the id |
| Trucks.TimeAtMonotone | wgups_routing_app/models/truck.py:27-28 | the clock starts at 8:00 am, never runs backwards, and advances by miles at 18 mph |
| Trucks.RouteStep | wgups_routing_app/models/truck.py:40-43 | driving one more known leg adds its distance to the route |
| Trucks.RouteBreaks | wgups_routing_app/models/truck.py:40-43 | a route with a leg of unknown length is not known |
| Trucks.RoutePrefix | wgups_routing_app/models/truck.py:40-43 | every prefix of a known route is known |
| Trucks.RouteEnd | wgups_routing_app/models/truck.py:52-53 | the return leg completes the route and adds its distance |
| Trucks.RouteGrows | wgups_routing_app/models/truck.py:38-53 | with no negative distance, a route is no shorter than any prefix |
| Trucks.Route | wgups_routing_app/models/truck.py:38-53 | the trip goes from the hub through each address in manifest order and back to the hub |
| Trucks.EmptyRoute | wgups_routing_app/models/truck.py:38-53 | an empty manifest still drives from hub to hub |
| Trucks.Truck.constructor | wgups_routing_app/models/truck.py:8-13 | a new truck takes the next id and starts with no miles, no trips and nothing aboard |
| Trucks.Truck.AvailableSpace | wgups_routing_app/models/truck.py:30-31 | the space lies in 0..16 and is zero exactly when the truck is full |
| Trucks.Truck.Location | wgups_routing_app/models/truck.py:68-69 | the hub when empty, else the address of the last package loaded |
| Trucks.Truck.Load | wgups_routing_app/models/truck.py:61-66 | refused when full or when set_enroute refuses; otherwise the package is appended and goes en route at the truck's time |
| Trucks.Truck.TripDelivers | wgups_routing_app/models/truck.py:40-44 | after a finished trip every package of the manifest is delivered |
| Trucks.Truck.AllDelivered | wgups_routing_app/models/truck.py:40-44 | once the loop has visited every package, the manifest had no repeat and none was delivered before |
| Trucks.Truck.DriveLegs | wgups_routing_app/models/truck.py:40-44 | the loop fails only on an unknown leg, a repeated package or one delivered before; otherwise every leg but the last is driven |
| Trucks.Truck.DriveTo | wgups_routing_app/models/truck.py:43-44 | the leg is added to the mileage and the package is delivered at the new clock |
| Trucks.Truck.ReturnToHub | wgups_routing_app/models/truck.py:52-53 | the manifest is cleared, and the return leg succeeds exactly when the whole route is known |
| Trucks.Truck.Visit | wgups_routing_app/models/truck.py:41-44 | one pass looks up the leg to the next address, drives it and delivers the package |
| Trucks.Truck.Deliver | wgups_routing_app/models/truck.py:33-53 | succeeds exactly when the route is known, no package repeats and none was delivered; then the mileage grows by the route length, the trip count by one, the manifest empties, and every package is delivered at its stop's clock |
| Dispatch.FirstMin | wgups_routing_app/simulator.py:121-130 | the place found is strictly smaller than all before it and no larger than all after it |
| Dispatch.FirstMinIsMinimum | wgups_routing_app/simulator.py:121-130 | the value found is the minimum, and it is found at its first place |
| Dispatch.LegBetween | wgups_routing_app/simulator.py:125-127 | a leg is known exactly when both the vertex and the edge exist; otherwise the error says which is missing |
| Dispatch.Legs | wgups_routing_app/simulator.py:124-128 | on success, one leg per address; a failure is a lookup error |
| Dispatch.ScanFails | wgups_routing_app/simulator.py:124-128 | the first unknown leg stops the scan with its error |
| Dispatch.ScanExtends | wgups_routing_app/simulator.py:124-128 | a known leg moves the nearest to its address exactly when it is strictly below the best so far |
| Dispatch.LegsMeaning | wgups_routing_app/simulator.py:124-128 | the scan succeeds exactly when every leg is known, and then lists them in order |
| Dispatch.LegsExtend | wgups_routing_app/simulator.py:124-128 | one more address adds its leg unless a lookup fails |
| Dispatch.LegsErrSticky | wgups_routing_app/simulator.py:124-128 | once a lookup fails, the scan fails with that error |
| Dispatch.NearestIn | wgups_routing_app/simulator.py:115-130 | fails exactly when a leg is unknown; None exactly for no package; otherwise a valid place |
| Dispatch.NearestPackage | wgups_routing_app/simulator.py:115-130 | the package picked is one of the packages scanned |
| Dispatch.NearestIsFirstNearest | wgups_routing_app/simulator.py:115-130 | the pick is strictly nearer than all before it and no farther than all after it |
| Dispatch.Place | wgups_routing_app/simulator.py:145 | an entry goes after every key not above it and before every key above it |
| Dispatch.Insert | wgups_routing_app/simulator.py:145 | insertion adds exactly the one entry |
| Dispatch.Sort | wgups_routing_app/simulator.py:145 | the sort is a permutation |
| Dispatch.InsertAscending | wgups_routing_app/simulator.py:145 | inserting keeps a list ascending |
| Dispatch.SortAscending | wgups_routing_app/simulator.py:145 | the sorted list is ascending |
| Dispatch.InsertLast | wgups_routing_app/simulator.py:145 | an entry with the largest key goes at the end |
| Dispatch.SortKeepsAscending | wgups_routing_app/simulator.py:145 | the sort is stable: an ascending list is not reordered |
| Dispatch.InsertKeepsTrucks | wgups_routing_app/simulator.py:145 | insertion adds its truck and moves no other |
| Dispatch.SortKeepsTrucks | wgups_routing_app/simulator.py:145 | sorting loses or adds no truck |
| Dispatch.SortedTrucks | wgups_routing_app/simulator.py:142-145 | the sorted fleet holds the same trucks, as many, in order of mileage |
| Dispatch.ByMileage | wgups_routing_app/simulator.py:142-145 | the trucks sorted by mileage are a permutation of the fleet in mileage order |
| Dispatch.Grow | wgups_routing_app/simulator.py:155-157 | the union holds its start and every associate of each package, and nothing else |
| Dispatch.GroupMembers | wgups_routing_app/simulator.py:154-158 | a group holds exactly n, its associates and theirs, each once |
| Dispatch.GroupWithin | wgups_routing_app/simulator.py:154-158 | a group stays inside any set closed under association |
| Dispatch.GroupHoldsItsPackage | wgups_routing_app/simulator.py:158 | a group always holds its own package |
| Dispatch.RemoveFirst | wgups_routing_app/simulator.py:233 | list.remove takes out one occurrence when there is one, else changes nothing |
| Dispatch.SweepUpdatesReady | wgups_routing_app/simulator.py:229-233 | the sweep updates only packages whose correction has arrived, and each one it updates leaves the list |
| Dispatch.SweepSkipsNext | wgups_routing_app/simulator.py:229-233 | with two ready packages in a row, the second is skipped and stays in the list |
| Dispatch.SweepNothingReady | wgups_routing_app/simulator.py:229-233 | with nothing ready, the list comes back whole |
| Dispatch.LinkedSymmetric | wgups_routing_app/simulator.py:109-111 | association made while loading is symmetric |
| Dispatch.ById | wgups_routing_app/simulator.py:92 | the package table maps each id to one of the packages with that id |
| Dispatch.ByIdLast | wgups_routing_app/simulator.py:92 | an id is in the table exactly when some package has it, and it maps to the last such package |
| Dispatch.ByAddress | wgups_routing_app/simulator.py:94-100 | the destination lists hold only packages that were read |
| Dispatch.ByAddressLists | wgups_routing_app/simulator.py:94-100 | every address read is a key, and it lists exactly its packages in reading order |
| Dispatch.AtMembers | wgups_routing_app/simulator.py:94-100 | a package is listed for an address exactly when that is its address |
| Dispatch.AtWithin | wgups_routing_app/simulator.py:94-100 | a listed package is one that was read |
| Dispatch.NamingOutside | wgups_routing_app/simulator.py:102-109 | an id no note has named yet is named by no package |
| Dispatch.NamingMembers | wgups_routing_app/simulator.py:102-107 | a package is registered under an id exactly when its note names it |
| Dispatch.Registered | wgups_routing_app/simulator.py:102-107 | the package joins the entry of each id named, a new id getting a new entry; other entries stay |
| Dispatch.AssociatesStep | wgups_routing_app/simulator.py:102-107 | reading one more row registers its package under the ids its note names |
| Dispatch.NamingLinked | wgups_routing_app/simulator.py:109-111 | the package just read is linked to exactly the packages naming its id, both ways |
| Dispatch.EdgesFrom | wgups_routing_app/simulator.py:71-72 | the edges of a row add no vertex |
| Dispatch.FitsPrefix | wgups_routing_app/simulator.py:71-72 | a file fits exactly when all rows but the last fit and the last does |
| Dispatch.FitsPrefixFails | wgups_routing_app/simulator.py:71-72 | a row with too many distances makes the file fail |
| Dispatch.EdgesFromFrame | wgups_routing_app/simulator.py:71-72 | a row's edges change no distance between two other vertices |
| Dispatch.EdgesFromHit | wgups_routing_app/simulator.py:71-72 | each of a row's edges reads back its distance in both directions |
| Dispatch.DistancesOf | wgups_routing_app/simulator.py:63-72 | loading succeeds exactly when every row fits (else IndexError), and then every row is a vertex |
| Dispatch.DistancesReadBack | wgups_routing_app/simulator.py:63-72 | in a fitting file of distinct locations, entry j of row i is the distance between rows i and j, both ways |
| Dispatch.ReadBackEarlier | wgups_routing_app/simulator.py:63-72 | a later row does not overwrite an earlier row's edges |
| Dispatch.Extended | wgups_routing_app/simulator.py:67-72 | one more fitting row resets its vertex and then adds its edges |
| Dispatch.DistancesStep | wgups_routing_app/simulator.py:67-72 | the graph of a file is that of all rows but the last, extended by the last |
| Dispatch.DistancesPrefixKeys | wgups_routing_app/simulator.py:67-70 | every row read so far is a vertex |
| Loading.StartLinks | wgups_routing_app/simulator.py:109-111 | before linking, a new package is linked to nothing |
| Loading.FinishLinks | wgups_routing_app/simulator.py:109-111 | once linked with every package naming its id, the links are exactly those of Linked |
| Simulation.CountUndelivered | wgups_routing_app/simulator.py:18-24 | the counting loop returns the number of undelivered items |
| Simulation.UndeliveredBounds | wgups_routing_app/simulator.py:18-24 | the count is at most the number of items, and zero exactly when every item is delivered |
| Simulation.UndeliveredCovers | wgups_routing_app/simulator.py:18-24 | every set of undelivered packages among the items is no larger than the count |
| Simulation.GroupOf | wgups_routing_app/simulator.py:154-158 | the group-building loops compute Group(n) |
| Simulation.WaitingMembers | wgups_routing_app/simulator.py:186-189 | a package is waiting exactly when it is an item at the hub, with no repeats |
| Simulation.WaitingListed | wgups_routing_app/simulator.py:186-189 | every waiting package is an item |
| Simulation.WaitingWithin | wgups_routing_app/simulator.py:186-189 | the waiting list stays inside any set holding every item |
| Simulation.MisaddressedMembers | wgups_routing_app/simulator.py:217-221 | a package is listed exactly when it is an item with a wrong address |
| Simulation.SweepWrongAddresses | wgups_routing_app/simulator.py:229-233 | the sweep is SweepFrom; updated packages get the corrected address and keep their status; the others are untouched |
| Simulation.LinkPair | wgups_routing_app/simulator.py:110-111 | one turn links two packages both ways, and the links so far stay as Linked says |
| Simulation.LinkAll | wgups_routing_app/simulator.py:109-111 | the loop links the new package with each package naming its id, both ways |
| Simulation.LinkRow | wgups_routing_app/simulator.py:109-111 | after linking, the packages read are associated exactly as Linked says |
| Simulation.Register | wgups_routing_app/simulator.py:102-107 | the association table becomes Registered |
| Simulation.ListAt | wgups_routing_app/simulator.py:94-100 | the package joins the end of its address's list, a new list when there is none |
| Simulation.FileAt | wgups_routing_app/simulator.py:92-100 | the package and destination tables grow by exactly one row |
| Simulation.FileAssoc | wgups_routing_app/simulator.py:102-109 | the association table grows by one row, and the packages naming the new id are returned |
| Simulation.FileTables | wgups_routing_app/simulator.py:92-109 | all three tables grow by one row |
| Simulation.File | wgups_routing_app/simulator.py:92-111 | one row is filed in all tables and linked |
| Simulation.FileRow | wgups_routing_app/simulator.py:90-111 | a package made from the next row extends what the tables hold by one row |
| Simulation.ReadRow | wgups_routing_app/simulator.py:89-111 | one row fails exactly when its deadline does not parse; otherwise a fresh package extends the tables |
| Simulation.ReadRows | wgups_routing_app/simulator.py:86-111 | the loop reads every row or stops at the first bad deadline |
| Simulation.LoadTables | wgups_routing_app/simulator.py:74-113 | succeeds exactly when every deadline parses; the tables are then ById and ByAddress of the packages read |
| Simulation.AddEdges | wgups_routing_app/simulator.py:71-72 | succeeds exactly when the row has no more distances than locations, and then adds EdgesFrom |
| Simulation.AddEdgeAt | wgups_routing_app/simulator.py:71-72 | one pass adds the next edge |
| Simulation.BuildGraph | wgups_routing_app/simulator.py:63-72 | succeeds exactly when the file fits, and then the graph is DistancesOf the rows |
| Simulation.AddRow | wgups_routing_app/simulator.py:67-72 | one row is added as a vertex with its edges; fails exactly when the row is too long |
| Simulation.MakeTrucks | wgups_routing_app/simulator.py:37 | n distinct new, empty trucks, numbered on from the counter |
| Simulation.AskTrucks | wgups_routing_app/simulator.py:139 | asking the trucks only adds to the exclude set |
| Simulation.AskTrucksFound | wgups_routing_app/simulator.py:139 | some truck says yes exactly when the package is urgent and available for it, given the earlier trucks' exclude set |
| Simulation.AskTrucksEligible | wgups_routing_app/simulator.py:139 | a yes means urgent and eligible for some truck; without associates that is enough |
| Simulation.UrgentFold | wgups_routing_app/simulator.py:136-140 | collecting the urgent set only adds to the exclude set |
| Simulation.UrgentFoldMembers | wgups_routing_app/simulator.py:136-140 | a package is urgent exactly when some truck said yes as the loop reached it; no repeats |
| Simulation.UrgentFoldBounds | wgups_routing_app/simulator.py:136-140 | the urgent set holds only urgent packages at the hub, and every urgent item without associates |
| Simulation.AcceptedFold | wgups_routing_app/simulator.py:202-203 | the scan only adds to the exclude set |
| Simulation.AcceptedFoldMembers | wgups_routing_app/simulator.py:202-203 | a package is accepted exactly when is_available said yes as the scan reached it |
| Simulation.Simulator.constructor | wgups_routing_app/simulator.py:12-16 | a new simulator has no trucks, no packages and no distances |
| Simulation.Simulator.LoadPackages | wgups_routing_app/simulator.py:74-113 | succeeds exactly when every deadline parses; the table maps ids and the returned table maps addresses; the rows before a bad one stay loaded |
| Simulation.Simulator.Install | wgups_routing_app/simulator.py:82 | the new table's packages join the simulator's |
| Simulation.Simulator.LoadDistances | wgups_routing_app/simulator.py:53-72 | succeeds exactly when the file fits, and then the graph is DistancesOf the rows |
| Simulation.Simulator.InstallGraph | wgups_routing_app/simulator.py:63 | the new graph becomes the simulator's |
| Simulation.Simulator.LoadTruck | wgups_routing_app/simulator.py:174 | the load succeeds exactly as Truck.Load says, and the simulator stays valid |
| Simulation.Simulator.DeliverTruck | wgups_routing_app/simulator.py:227 | a trip succeeds exactly as Truck.Deliver says; then exactly its manifest leaves the undelivered packages |
| Simulation.Simulator.Trip | wgups_routing_app/simulator.py:227 | the same, seen from the set of undelivered packages |
| Simulation.Simulator.DeliverLoad | wgups_routing_app/simulator.py:227 | the batch is as large as the manifest, and exactly it leaves the undelivered packages |
| Simulation.Simulator.TripLeaves | wgups_routing_app/simulator.py:227 | delivering exactly a batch removes exactly it from the undelivered packages |
| Simulation.Simulator.IsAvailableFor | wgups_routing_app/models/package.py:44-66 | the answer and the new shared default set are exactly Availability of the package for the truck, starting from the old shared set; a yes means eligible, and an ineligible package leaves the set as it was |
| Simulation.Simulator.GetRemaining | wgups_routing_app/simulator.py:18-24 | raises exactly on a missing bucket; otherwise the number of undelivered items |
| Simulation.Simulator.Items | wgups_routing_app/simulator.py:187 | raises exactly on a missing bucket; otherwise the items in bucket order, all packages of the simulator |
| Simulation.Simulator.SortTrucks | wgups_routing_app/simulator.py:145 | the trucks become ByMileage of the fleet |
| Simulation.Simulator.AcceptedBySome | wgups_routing_app/simulator.py:139 | the answer is AskTrucks: a yes means urgent somewhere and at the hub |
| Simulation.Simulator.UrgentAmong | wgups_routing_app/simulator.py:138-140 | the loop computes UrgentFold: urgent packages at the hub, no repeats |
| Simulation.Simulator.ConsiderUrgent | wgups_routing_app/simulator.py:139-140 | one turn adds the package exactly when some truck accepts it |
| Simulation.Simulator.CollectUrgent | wgups_routing_app/simulator.py:136-140 | raises exactly on a missing bucket; otherwise the urgent set is UrgentFold of the items; nothing is delivered |
| Simulation.Simulator.LoadIfAvailable | wgups_routing_app/simulator.py:178-180 | the package is appended exactly when the truck is not full and Availability says yes, and the exclude set becomes the one Availability threads; otherwise the manifest stays as it was; a loaded package leaves the urgent set |
| Simulation.Simulator.LoadSameDestination | wgups_routing_app/simulator.py:177-180 | the manifest only grows, and only with eligible packages for the same address; a same-address package without associates is left eligible only when the truck is full; only packages on the truck change status |
| Simulation.Simulator.LoadWithSame | wgups_routing_app/simulator.py:169-180 | fails exactly when truck.load raises (full truck or another required truck); on success the member is the next manifest entry and leaves the urgent set, followed by eligible packages for its address, and one of those without associates is left eligible only when the truck is full |
| Simulation.Simulator.LoadMember | wgups_routing_app/simulator.py:165-180 | a member no longer at the hub is passed over with nothing changed; on success a member at the hub is on the truck; everything loaded is in the group or was ready |
| Simulation.Simulator.GroupTurn | wgups_routing_app/simulator.py:162-180 | the group shrinks; on success the member taken out leaves the urgent set and, when it was at the hub, is on the truck |
| Simulation.Simulator.LoadGroup | wgups_routing_app/simulator.py:162-180 | on success every member of the group that was at the hub is on the truck and none stays urgent; everything loaded is in the group or was ready |
| Simulation.Simulator.NearestGroup | wgups_routing_app/simulator.py:152-158 | the nearest urgent package by NearestPackage and its Group, or the lookup error |
| Simulation.Simulator.UrgentTurn | wgups_routing_app/simulator.py:150-180 | on success the urgent set shrinks and every member of the nearest package's group that was at the hub is on the truck; NoProgress exactly when the nearest group does not fit, and then nothing changes |
| Simulation.Simulator.UrgentStep | wgups_routing_app/simulator.py:150-180 | on success the group of the nearest urgent package is loaded, every member at the hub being on the truck; whatever a turn loads is tied to an urgent package or was ready for the truck |
| Simulation.Simulator.FillUrgent | wgups_routing_app/simulator.py:150-180 | the loop ends with the truck full or the urgent set empty |
| Simulation.Simulator.LoadGroupOf | wgups_routing_app/simulator.py:161-180 | on success every member of the group that was at the hub is on the truck, and at least the urgent package itself leaves the urgent set |
| Simulation.Simulator.FillTrucks | wgups_routing_app/simulator.py:147-180 | when urgent packages are left, every truck is full; each truck only gains packages tied to an urgent one or ready for it |
| Simulation.Simulator.FillTruck | wgups_routing_app/simulator.py:147-180 | the same for one truck, keeping the earlier trucks full |
| Simulation.Simulator.FillAll | wgups_routing_app/simulator.py:147-180 | the same over the simulator's trucks; nothing is delivered |
| Simulation.Simulator.LoadUrgent | wgups_routing_app/simulator.py:142-180 | the trucks are sorted by mileage; every urgent package taken out is en route; when some are left, every truck is full |
| Simulation.Simulator.DeliverUrgent | wgups_routing_app/simulator.py:132-180 | the urgent set is UrgentFold; the trucks are sorted; every urgent package not left over is en route; nothing is delivered |
| Simulation.Simulator.LegTo | wgups_routing_app/simulator.py:125-127 | the lookup answers as LegOf |
| Simulation.Simulator.ScanNearest | wgups_routing_app/simulator.py:121-130 | the loop computes NearestIn |
| Simulation.Simulator.NearestTo | wgups_routing_app/simulator.py:115-130 | the method computes NearestPackage |
| Simulation.Simulator.HubPackages | wgups_routing_app/simulator.py:186-189 | the loop computes Waiting |
| Simulation.Simulator.AcceptedAmong | wgups_routing_app/simulator.py:202-204 | the loop computes AcceptedFold: eligible packages only, and every eligible package without associates |
| Simulation.Simulator.ScanAvailable | wgups_routing_app/simulator.py:200-209 | counts the accepted packages and picks the nearest of them, measured outbound from the truck |
| Simulation.Simulator.TruckTurn | wgups_routing_app/simulator.py:197-212 | a full truck is passed over; otherwise the pick, if any, is appended and joins the loaded set |
| Simulation.Simulator.ScanAndLoad | wgups_routing_app/simulator.py:200-212 | the same for a truck that is not full |
| Simulation.Simulator.LoadChosen | wgups_routing_app/simulator.py:200-212 | a scan error is raised, no pick loads nothing, a pick is loaded |
| Simulation.Simulator.LoadPick | wgups_routing_app/simulator.py:200-212 | loading an accepted package always succeeds and appends it |
| Simulation.Simulator.PassTruck | wgups_routing_app/simulator.py:197-212 | a turn that counts something loads one more package |
| Simulation.Simulator.TakeTurn | wgups_routing_app/simulator.py:197-212 | a turn only grows the manifest, and only with waiting packages |
| Simulation.Simulator.SharePass | wgups_routing_app/simulator.py:197-212 | a pass that counts something loads at least one package |
| Simulation.Simulator.Share | wgups_routing_app/simulator.py:194-212 | the sharing loop ends with a pass counting at most two; manifests only grow |
| Simulation.Simulator.ShareAll | wgups_routing_app/simulator.py:194-212 | the same over the simulator's trucks; only waiting packages change status |
| Simulation.Simulator.MisaddressedAmong | wgups_routing_app/simulator.py:217-221 | the loop computes Misaddressed |
| Simulation.Simulator.SetWrongAddress | wgups_routing_app/simulator.py:217-221 | the list is built from the items on the first transport only |
| Simulation.Simulator.SweepWrong | wgups_routing_app/simulator.py:229-233 | the sweep is SweepFrom on the simulator's list; no status changes |
| Simulation.Simulator.SweepAfter | wgups_routing_app/simulator.py:229-233 | the sweep changes no package's status |
| Simulation.Simulator.DeliverOne | wgups_routing_app/simulator.py:225-233 | one truck counts its load, delivers it and empties; the other trucks are unchanged |
| Simulation.Simulator.DeliverStep | wgups_routing_app/simulator.py:223-235 | after truck k, the first k + 1 trucks are empty and their loads have been delivered |
| Simulation.Simulator.DeliverAll | wgups_routing_app/simulator.py:223-235 | the count returned is the total of the manifests; exactly those packages are delivered; every truck is empty |
| Simulation.Simulator.DeliverPhase | wgups_routing_app/simulator.py:217-235 | the same, with the wrong-address list built first |
| Simulation.Simulator.Transport | wgups_routing_app/simulator.py:182-235 | the count returned is the number of packages delivered, at least what was aboard before; they leave the undelivered packages |
| Simulation.Simulator.ShareAndDeliver | wgups_routing_app/simulator.py:186-235 | the same once the items are known; with empty trucks, only items are delivered |
| Simulation.Simulator.ShareWaiting | wgups_routing_app/simulator.py:186-212 | sharing delivers nothing and the manifests hold no fewer packages |
| Simulation.Simulator.ShareKept | wgups_routing_app/simulator.py:186-212 | the same, stated by the manifest total |
| Simulation.Simulator.AboardPackages | wgups_routing_app/simulator.py:226 | every package aboard a truck is one of the simulator's |
| Simulation.Simulator.InstallTrucks | wgups_routing_app/simulator.py:37 | the new trucks become the fleet |
| Simulation.Simulator.AddTrucks | wgups_routing_app/simulator.py:37 | the fleet becomes n fresh, empty trucks |
| Simulation.Simulator.AnyLoaded | wgups_routing_app/simulator.py:44 | true exactly when some truck is not empty |
| Simulation.Simulator.Setup | wgups_routing_app/simulator.py:35-37 | fails with BadTime on a bad deadline, else with IndexOutOfRange on a row too long; otherwise the graph is DistancesOf and n empty trucks exist |
| Simulation.Simulator.LoadFiles | wgups_routing_app/simulator.py:35-36 | the same for the two loads alone |
| Simulation.Simulator.UrgentPhase | wgups_routing_app/simulator.py:39-46 | the urgent loop ends with every truck empty, having delivered some packages and brought none back |
| Simulation.Simulator.UrgentRound | wgups_routing_app/simulator.py:41-46 | a round that loads a truck delivers at least one package; one that loads none leaves the trucks empty |
| Simulation.Simulator.DispatchIfLoaded | wgups_routing_app/simulator.py:44-46 | dispatches exactly when some truck carries something, and then delivers at least one package |
| Simulation.Simulator.DispatchLoaded | wgups_routing_app/simulator.py:44-46 | a dispatch with something aboard delivers at least one package |
| Simulation.Simulator.Drain | wgups_routing_app/simulator.py:48-51 | the counts subtracted add up to the starting count; starting from get_remaining's count, every item ends delivered |
| Simulation.Simulator.Dispatches | wgups_routing_app/simulator.py:48-51 | as many distinct packages are delivered as the passes report, all items undelivered at the start |
| Simulation.Simulator.DrainStep | wgups_routing_app/simulator.py:48-51 | one pass delivers as many new packages as it reports |
| Simulation.Simulator.Drained | wgups_routing_app/simulator.py:48-51 | once as many packages are delivered as were undelivered, every item is delivered |
| Simulation.Simulator.DrainRemaining | wgups_routing_app/simulator.py:48-51 | the drain loop from get_remaining ends with every item delivered |
| Simulation.Simulator.Deliver | wgups_routing_app/simulator.py:39-51 | the two loops end with every truck empty and every item delivered |
| Simulation.Simulator.Run | wgups_routing_app/simulator.py:26-51 | fails with BadTime or IndexOutOfRange as the files require; otherwise ends with n empty trucks and every package of the table delivered |

## Left out

- `main.py`, CSV reading, float parsing and every print are not part of this model. The files arrive as rows of records: `PackageRecord` and `DistanceRow`.
- Python's `hash()` on strings is a parameter `h` of the simulator, the graph and the locations. Python's hash of an int is modelled.
- Python sets of packages are insertion-ordered lists without repeats (`AddOne`, `AddAll`, `Discard`). Python's iteration order over a set is unspecified. So where the code iterates a set, the model fixes one order:
  - the nearest-package scan (ties);
  - the group loop;
  - the associates loop of `is_available`;
  - the association table.
- Exceptions become `Err`/`Fail` results, and a run stops at the first one. Where the code has already changed objects when it raises, the state after an error is only partly specified.
- Simulation.Simulator.UrgentTurn: where the group of the nearest urgent package does not fit, the Python loop spins forever. The model returns `Fail(NoProgress)` with nothing changed.
- Simulation.Simulator.Drain: the drain loop takes a `rounds` bound and fails with `OutOfRounds` when it runs out. The Python loop runs forever when a round delivers nothing. The bound leaves unmodelled how many rounds a run needs.
- Simulation.Simulator.Run: the code can spin forever in both loops named above. The sharing loop repeats while a pass counts more than two candidates (`while total > 2`, simulator.py:195), and the model does the same.
- Simulation.Simulator.Run: a package whose id a later row reuses leaves the package table but stays in the destinations table. The sharing pass reads only the package table (simulator.py:187-189), so such a package can stay undelivered, and Run promises delivery only for the packages of the table.
- Simulation.Simulator.LoadSameDestination: the contract says which available packages get loaded only for packages without associates. For a package with associates, the answer of is_available depends on statuses that earlier loads in the same loop have changed, so the model does not promise which of them are loaded.
- HashTables.HashTable.Iter: Python's generator yields the pairs of the buckets before the first missing bucket, then raises. The model returns the error without those pairs.
- The regular expressions' `\d` is ASCII digits only. Python's `\d` also matches other Unicode digits.
- Simulation.Simulator.LoadUrgent: each truck's gains are proved (`Gained`) in FillAll, but they are not lifted through the sort into LoadUrgent's own contract.
- The mutable default argument of `is_available` is the `DefaultExclude` object, shared by every call that does not pass a set. It is threaded through the simulator as `shared`. The model keeps the leak across calls that the code has.
- The following text outputs are not modelled; only `StatusAt`, the status `brief` reports, is:
  - `get_status`;
  - `human_deadline`;
  - the brief and block strings;
  - `__str__` of packages and trucks.
- The truck's log strings are not modelled.
- `minutesFromString` adds twelve hours for any "pm", so "12:30 pm" parses to 1470. The model keeps this, and ParseTimeText states it.
- Floating-point arithmetic becomes exact `real` arithmetic for distances, mileage and times.
