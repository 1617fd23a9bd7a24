/**
 * Packages: the parsing of deadlines and notes, the AT_THE_HUB -> EN_ROUTE ->
 * DELIVERED life cycle with its guards, and the eligibility rules the
 * scheduler consults.
 */
module Packages {
  import opened Wrappers
  import opened Common

  datatype Status = AtTheHub | EnRoute | Delivered

  /** Position of a status along the life cycle. */
  function Rank(s: Status): nat {
    match s
    case AtTheHub => 0
    case EnRoute => 1
    case Delivered => 2
  }

  // ---------------------------------------------------------------------------
  // Times: the pattern (\d?\d):(\d\d) ([ap]m)
  // ---------------------------------------------------------------------------

  /** A match of the time pattern: where it lies and the numbers it carries. */
  datatype TimeMatch = TimeMatch(start: nat, end: nat, hours: nat, minutes: nat, pm: bool)

  predicate IsAmPm(c: char, ignoreCase: bool) {
    c == 'a' || c == 'p' || (ignoreCase && (c == 'A' || c == 'P'))
  }

  predicate IsM(c: char, ignoreCase: bool) {
    c == 'm' || (ignoreCase && c == 'M')
  }

  /** The part ":dd [ap]m" of the pattern, starting at position i. */
  predicate TailAt(s: string, i: nat, ignoreCase: bool) {
    i + 6 <= |s| && s[i] == ':' && IsDigit(s[i + 1]) && IsDigit(s[i + 2]) &&
    s[i + 3] == ' ' && IsAmPm(s[i + 4], ignoreCase) && IsM(s[i + 5], ignoreCase)
  }

  /** The value of the two digits at positions i and i + 1. */
  function TwoDigits(s: string, i: nat): nat
    requires i + 2 <= |s| && IsDigit(s[i]) && IsDigit(s[i + 1])
  {
    10 * DigitValue(s[i]) + DigitValue(s[i + 1])
  }

  /**
   * The pattern anchored at position i. `\d?` is greedy, so a two-digit hour
   * is tried first and a one-digit hour only when that fails.
   */
  function MatchTimeAt(s: string, i: nat, ignoreCase: bool): (r: Option<TimeMatch>)
    ensures r.Some? ==> r.value.start == i && i < r.value.end <= |s| && r.value.end - i in {7, 8}
    ensures r.Some? ==> r.value.minutes < 100 && r.value.hours < 100
  {
    if i + 2 <= |s| && IsDigit(s[i]) && IsDigit(s[i + 1]) && TailAt(s, i + 2, ignoreCase) then
      Some(TimeMatch(i, i + 8, TwoDigits(s, i), TwoDigits(s, i + 3), s[i + 6] == 'p' || s[i + 6] == 'P'))
    else if i + 1 <= |s| && IsDigit(s[i]) && TailAt(s, i + 1, ignoreCase) then
      Some(TimeMatch(i, i + 7, DigitValue(s[i]), TwoDigits(s, i + 2), s[i + 5] == 'p' || s[i + 5] == 'P'))
    else
      None
  }

  /** re.search from position i: the leftmost match. */
  function SearchTime(s: string, i: nat, ignoreCase: bool): (r: Option<TimeMatch>)
    requires i <= |s|
    ensures r.Some? ==> i <= r.value.start && MatchTimeAt(s, r.value.start, ignoreCase) == r
    ensures r.Some? ==> forall j :: i <= j < r.value.start ==> MatchTimeAt(s, j, ignoreCase).None?
    ensures r.None? ==> forall j :: i <= j <= |s| ==> MatchTimeAt(s, j, ignoreCase).None?
    decreases |s| - i
  {
    if i == |s| then None
    else
      match MatchTimeAt(s, i, ignoreCase)
      case Some(m) => Some(m)
      case None => SearchTime(s, i + 1, ignoreCase)
  }

  /** The minutes after midnight a match denotes: pm adds twelve hours, whatever the hour. */
  function MinutesOf(m: TimeMatch): int {
    m.minutes + (m.hours + (if m.pm then 12 else 0)) * 60
  }

  /** minutesFromString: 'EOD', or the first "h:mm am|pm" (any case); None where Python raises. */
  function MinutesFromString(s: string): (r: Option<int>)
    ensures s == "EOD" ==> r == Some(EOD)
    ensures s != "EOD" ==> (r.Some? <==> SearchTime(s, 0, true).Some?)
  {
    if s == "EOD" then Some(EOD)
    else
      match SearchTime(s, 0, true)
      case None => None
      case Some(m) => Some(MinutesOf(m))
  }

  /** The digits of an hour below 100 as Python prints it, without padding. */
  function HourText(h: nat): string
    requires h < 100
  {
    if h < 10 then [DigitChar(h)] else [DigitChar(h / 10), DigitChar(h % 10)]
  }

  /** "h:mm xm" with the hour unpadded and the minutes on two digits. */
  function TimeText(h: nat, m: nat, ampm: string): string
    requires h < 100 && m < 100
  {
    HourText(h) + ":" + [DigitChar(m / 10), DigitChar(m % 10)] + " " + ampm
  }

  /**
   * A time written "h:mm am" parses to h*60 + mm, and "h:mm pm" to
   * (h+12)*60 + mm, in any letter case; so "12:30 pm" is 1470, past midnight.
   */
  lemma ParseTimeText(h: nat, m: nat, ampm: string)
    requires h < 100 && m < 100
    requires |ampm| == 2 && IsAmPm(ampm[0], true) && IsM(ampm[1], true)
    ensures MinutesFromString(TimeText(h, m, ampm)) ==
            Some(m + (h + (if ampm[0] in "pP" then 12 else 0)) * 60)
  {
    var s := TimeText(h, m, ampm);
    DigitCharValue(m / 10);
    DigitCharValue(m % 10);
    if h < 10 {
      DigitCharValue(h);
      assert s[1] == ':';
      assert MatchTimeAt(s, 0, true).Some?;
    } else {
      DigitCharValue(h / 10);
      DigitCharValue(h % 10);
      assert MatchTimeAt(s, 0, true).Some?;
    }
  }

  /** The deadline 'EOD' and the fixed recovery time of a wrong address. */
  lemma KnownTimes()
    ensures MinutesFromString("EOD") == Some(1440)
    ensures MinutesFromString("10:20 am") == Some(620)
    ensures MinutesFromString("10:30 AM") == Some(630)
  {
    ParseTimeText(10, 20, "am");
    assert TimeText(10, 20, "am") == "10:20 am";
    ParseTimeText(10, 30, "AM");
    assert TimeText(10, 30, "AM") == "10:30 AM";
  }

  /**
   * A note's time is parsed a second time from the matched text, this time
   * ignoring case; it yields the same minutes as the first match.
   */
  lemma GroupReparses(notes: string)
    requires SearchTime(notes, 0, false).Some?
    ensures var m := SearchTime(notes, 0, false).value;
            m.end <= |notes| && MinutesFromString(notes[m.start..m.end]) == Some(MinutesOf(m))
  {
    var m := SearchTime(notes, 0, false).value;
    MatchedText(notes, m);
    ReparseText(notes[m.start..m.end], m.(start := 0, end := m.end - m.start));
  }

  /** Text that matches at its start, ignoring case, parses to the minutes of that match. */
  lemma ReparseText(g: string, m: TimeMatch)
    requires MatchTimeAt(g, 0, true) == Some(m)
    ensures MinutesFromString(g) == Some(MinutesOf(m))
  {
    assert |g| >= 7;
    assert g != "EOD" by {
      assert |g| != |"EOD"|;
    }
    assert SearchTime(g, 0, true) == Some(m);
  }

  /** The text of a case-sensitive match matches again, ignoring case, at its own start. */
  lemma MatchedText(s: string, m: TimeMatch)
    requires MatchTimeAt(s, m.start, false) == Some(m)
    ensures m.start <= m.end <= |s| && m.end - m.start in {7, 8}
    ensures MatchTimeAt(s[m.start..m.end], 0, true) == Some(m.(start := 0, end := m.end - m.start))
  {
    var i := m.start;
    var g := s[i..m.end];
    assert forall k :: 0 <= k < |g| ==> g[k] == s[i + k];
    if m.end - i == 8 {
      assert IsDigit(s[i]) && IsDigit(s[i + 1]) && TailAt(s, i + 2, false);
      assert TailAt(g, 2, true);
      assert TwoDigits(g, 0) == TwoDigits(s, i) && TwoDigits(g, 3) == TwoDigits(s, i + 3);
    } else {
      assert IsDigit(s[i]) && TailAt(s, i + 1, false);
      assert TailAt(g, 1, true);
      assert !IsDigit(g[1]);
      assert TwoDigits(g, 2) == TwoDigits(s, i + 2);
    }
  }

  // ---------------------------------------------------------------------------
  // Notes
  // ---------------------------------------------------------------------------

  /** What a note says about its package, first matching rule wins. */
  datatype Note =
    | NoNote                        // empty note
    | AvailableFrom(minutes: int)   // a time "h:mm am|pm": the package arrives then
    | RequiresTruck(truck: int)     // "truck N": only truck N may carry it
    | DeliveredWith(ids: set<int>)  // "delivered with": every number in the note
    | WrongAddress                  // anything else: the address is wrong until 10:20 am

  predicate HasSubstring(s: string, t: string)
    decreases |s|
  {
    |t| <= |s| && (s[..|t|] == t || (|s| > 0 && HasSubstring(s[1..], t)))
  }

  /** re.search(r'truck (\d)'): the digit after the leftmost "truck ". */
  function SearchTruck(s: string): (r: Option<nat>)
    ensures r.Some? ==> r.value < 10
    decreases |s|
  {
    if |s| < 7 then None
    else if s[..6] == "truck " && IsDigit(s[6]) then Some(DigitValue(s[6]))
    else SearchTruck(s[1..])
  }

  /** Length of the run of digits at the start of s. */
  function RunLength(s: string): (k: nat)
    ensures k <= |s| && AllDigits(s[..k])
    ensures k < |s| ==> !IsDigit(s[k])
  {
    if s == [] || !IsDigit(s[0]) then 0
    else
      var k := 1 + RunLength(s[1..]);
      assert s[..k] == [s[0]] + s[1..][..k - 1];
      k
  }

  /** re.findall(r'\d+'): every maximal run of digits, left to right, as a number. */
  function DigitRuns(s: string): seq<nat>
    decreases |s|
  {
    if s == [] then []
    else if !IsDigit(s[0]) then DigitRuns(s[1..])
    else
      var k := RunLength(s);
      [DecimalValue(s[..k])] + DigitRuns(s[k..])
  }

  /** The numbers a note mentions, as the set Python builds from them. */
  function NumbersIn(s: string): set<int> {
    set n | n in DigitRuns(s) :: n as int
  }

  /** _retrieve_note. */
  function ClassifyNote(notes: string): (r: Note)
    ensures notes == [] <==> r == NoNote
    ensures r.AvailableFrom? <==> notes != [] && SearchTime(notes, 0, false).Some?
    ensures r.RequiresTruck? ==> 0 <= r.truck < 10
  {
    if notes == [] then NoNote
    else if SearchTime(notes, 0, false).Some? then AvailableFrom(MinutesOf(SearchTime(notes, 0, false).value))
    else if SearchTruck(notes).Some? then RequiresTruck(SearchTruck(notes).value)
    else if HasSubstring(notes, "delivered with") then DeliveredWith(NumbersIn(notes))
    else WrongAddress
  }

  /** A number written in decimal is read back by findall as that one number. */
  lemma DigitRunsOfNumber(n: nat)
    ensures DigitRuns(Digits(n)) == [n]
  {
    var s := Digits(n);
    DigitsRoundTrip(n);
    var k := RunLength(s);
    assert k == |s|;
    assert s[..k] == s;
  }

  /** Without a ':' no time can be found. */
  lemma {:induction false} NoColonNoTime(s: string, i: nat, ignoreCase: bool)
    requires i <= |s| && ':' !in s
    ensures SearchTime(s, i, ignoreCase).None?
    decreases |s| - i
  {
    if i < |s| {
      assert MatchTimeAt(s, i, ignoreCase).None? by {
        if i + 2 < |s| {
          assert s[i + 2] != ':';
        }
        if i + 1 < |s| {
          assert s[i + 1] != ':';
        }
      }
      NoColonNoTime(s, i + 1, ignoreCase);
    }
  }

  /** A note without a time that starts "truck N" binds the package to truck N. */
  lemma TruckNote(d: nat, rest: string)
    requires d < 10 && ':' !in rest
    ensures ClassifyNote("truck " + [DigitChar(d)] + rest) == RequiresTruck(d)
  {
    var s := "truck " + [DigitChar(d)] + rest;
    assert ':' !in s by {
      assert forall k :: 0 <= k < |s| && k >= 7 ==> s[k] == rest[k - 7];
    }
    NoColonNoTime(s, 0, false);
    assert s[..6] == "truck ";
    DigitCharValue(d);
  }

  // ---------------------------------------------------------------------------
  // Status as of a time
  // ---------------------------------------------------------------------------

  /** `(x or float('inf')) <= time`: a missing time, and also a time of 0, counts as never. */
  predicate ReachedBy(x: Option<real>, time: real) {
    x.Some? && x.value != 0.0 && x.value <= time
  }

  /** The status `brief` reports for a time, from the recorded load and delivery times. */
  function StatusAt(loadedAt: Option<real>, deliveredAt: Option<real>, time: real): (s: Status)
    ensures s == Delivered <==> ReachedBy(deliveredAt, time)
    ensures s == EnRoute <==> !ReachedBy(deliveredAt, time) && ReachedBy(loadedAt, time)
  {
    if ReachedBy(deliveredAt, time) then Delivered
    else if ReachedBy(loadedAt, time) then EnRoute
    else AtTheHub
  }

  /** The reported status only moves forward as the time asked about grows. */
  lemma StatusAtMonotone(loadedAt: Option<real>, deliveredAt: Option<real>, t1: real, t2: real)
    requires t1 <= t2
    ensures Rank(StatusAt(loadedAt, deliveredAt, t1)) <= Rank(StatusAt(loadedAt, deliveredAt, t2))
  {
  }

  // ---------------------------------------------------------------------------
  // The package
  // ---------------------------------------------------------------------------

  /** A row of the package file, its numeric columns already converted. */
  datatype PackageRecord = PackageRecord(
    id: int, address: string, city: string, state: string, zip: string,
    deadline: string, mass: int, notes: string)

  /** The address_zip __init__ leaves on the package of row r: empty when its note says the address is wrong. */
  function AddressZipOf(r: PackageRecord): string {
    if ClassifyNote(r.notes).WrongAddress? then "" else StandardizeAddress(r.address + " (" + r.zip + ")")
  }

  /** The address the office hands out for the package with the wrong address. */
  const CorrectedAddress: string := "410 S State St"
  const CorrectedZip: string := "84111"
  const CorrectedAddressZip: string := "410 S State St (84111)"

  /** The available_at given to a package with a wrong address: 10:20 am. */
  const WrongAddressFixTime: int := 620

  /** The set-like order-keeping lists the model uses for Python sets of packages. */
  function Without(ds: seq<Package>, E: set<Package>): (r: seq<Package>)
    ensures forall d :: d in r ==> d in ds && d !in E
    ensures forall d :: d in ds && d !in E ==> d in r
    ensures (forall d :: d in ds ==> d in E) ==> r == []
    ensures |r| <= |ds|
  {
    if ds == [] then []
    else if ds[0] in E then Without(ds[1..], E)
    else [ds[0]] + Without(ds[1..], E)
  }

  /** No package occurs twice: what makes a list a set. */
  predicate NoDups(xs: seq<Package>) {
    forall j, k :: 0 <= j < k < |xs| ==> xs[j] != xs[k]
  }

  /** Every member of ys is a member of xs. */
  predicate Within(ys: seq<Package>, xs: seq<Package>) {
    forall i :: 0 <= i < |ys| ==> ys[i] in xs
  }

  /** set.add: x joins at the end unless it is already there. */
  function AddOne(xs: seq<Package>, x: Package): (r: seq<Package>)
    ensures NoDups(xs) ==> NoDups(r)
    ensures Within(xs, r) && x in r && Within(r, xs + [x])
    ensures |r| == if x in xs then |xs| else |xs| + 1
  {
    if x in xs then xs else xs + [x]
  }

  /** set.union: the members of ys not yet in xs join at the end, in their order. */
  function AddAll(xs: seq<Package>, ys: seq<Package>): (r: seq<Package>)
    ensures NoDups(xs) ==> NoDups(r)
    ensures Within(xs, r) && Within(ys, r) && Within(r, xs + ys)
    ensures |xs| <= |r|
    decreases |ys|
  {
    if ys == [] then xs else AddAll(AddOne(xs, ys[0]), ys[1..])
  }

  /** set.discard: x leaves, wherever it is; a list without x is returned as it is. */
  function Discard(xs: seq<Package>, x: Package): (r: seq<Package>)
    ensures Within(r, xs) && x !in r
    ensures forall i :: 0 <= i < |xs| && xs[i] != x ==> xs[i] in r
    ensures NoDups(xs) ==> NoDups(r)
    ensures |r| <= |xs|
    ensures x in xs ==> |r| < |xs|
    ensures x !in xs ==> r == xs
  {
    if xs == [] then []
    else if xs[0] == x then Discard(xs[1..], x)
    else [xs[0]] + Discard(xs[1..], x)
  }

  /** A list without repeats, drawn from xs and missing some member x of xs, is shorter than xs. */
  lemma {:induction false} ShorterWithout(ys: seq<Package>, xs: seq<Package>, x: Package)
    requires NoDups(ys) && Within(ys, xs) && x in xs && x !in ys
    ensures |ys| < |xs|
  {
    if ys != [] {
      var y := ys[0];
      var rest := Discard(xs, y);
      forall i | 0 <= i < |ys[1..]| ensures ys[1..][i] in rest {
        assert ys[1..][i] == ys[i + 1] && ys[i + 1] != ys[0];
      }
      ShorterWithout(ys[1..], rest, x);
    }
  }

  /** Packages whose associated lists stay inside `U`. */
  ghost predicate Closed(U: set<Package>)
    reads U
  {
    forall q, i :: q in U && 0 <= i < |q.associated| ==> q.associated[i] in U
  }

  lemma SubsetCard<T>(A: set<T>, B: set<T>)
    requires A <= B
    ensures |A| <= |B|
  {
    if A != {} {
      var x :| x in A;
      SubsetCard(A - {x}, B - {x});
    }
  }

  /**
   * The answer of is_available and the exclude set it leaves behind, as a
   * function: the package's own checks, then every associate not yet excluded
   * (the list is taken once, after adding the package itself) asked in turn
   * with the set as the previous answer left it.
   */
  ghost function Availability(p: Package, truckId: int, time: real, exclude: set<Package>, U: set<Package>): (r: (bool, set<Package>))
    requires p in U && Closed(U)
    reads U
    ensures exclude <= r.1 <= exclude + U
    decreases |U - (exclude + {p})|, 1
  {
    if !p.Eligible(truckId, time) then (false, exclude)
    else
      var E1 := exclude + {p};
      AskAll(Without(p.associated, E1), true, E1, truckId, time, U, E1)
  }

  /** The for loop of is_available: the answer kept is the one the last associate gave. */
  ghost function AskAll(deps: seq<Package>, ok: bool, E: set<Package>, truckId: int, time: real, U: set<Package>, E1: set<Package>): (r: (bool, set<Package>))
    requires Closed(U) && E1 <= E <= E1 + U
    requires forall d :: d in deps ==> d in U && d !in E1
    reads U
    ensures E <= r.1 <= E1 + U
    decreases |U - E1|, 0, |deps|
  {
    if deps == [] then (ok, E)
    else
      var d := deps[0];
      SubsetCard(U - (E + {d}), (U - E1) - {d});
      var a := Availability(d, truckId, time, E, U);
      AskAll(deps[1..], a.0, a.1, truckId, time, U, E1)
  }

  /** Asking one more associate: the answer is that associate's, whatever came before. */
  lemma {:induction false} AskAllSnoc(deps: seq<Package>, d: Package, ok: bool, E: set<Package>, truckId: int, time: real, U: set<Package>, E1: set<Package>)
    requires Closed(U) && E1 <= E <= E1 + U
    requires forall x :: x in deps + [d] ==> x in U && x !in E1
    ensures var before := AskAll(deps, ok, E, truckId, time, U, E1);
            AskAll(deps + [d], ok, E, truckId, time, U, E1) == Availability(d, truckId, time, before.1, U)
    decreases |deps|
  {
    if deps == [] {
      assert [d][1..] == [];
    } else {
      var a := Availability(deps[0], truckId, time, E, U);
      assert (deps + [d])[1..] == deps[1..] + [d];
      AskAllSnoc(deps[1..], d, a.0, a.1, truckId, time, U, E1);
    }
  }

  /** A package is_available accepts passed its own checks. */
  lemma AvailableIsEligible(p: Package, truckId: int, time: real, exclude: set<Package>, U: set<Package>)
    requires p in U && Closed(U) && Availability(p, truckId, time, exclude, U).0
    ensures p.Eligible(truckId, time)
  {
  }

  /** A package without associates is accepted exactly when it passes its own checks, whatever the exclude set. */
  lemma AloneIsAvailable(p: Package, truckId: int, time: real, exclude: set<Package>, U: set<Package>)
    requires p in U && Closed(U) && p.associated == []
    ensures Availability(p, truckId, time, exclude, U).0 <==> p.Eligible(truckId, time)
  {
    assert Without([], exclude + {p}) == [];
  }

  /**
   * The quirk of is_available: an eligible package's answer is the answer of
   * the last associate asked (true when there is none), not the conjunction.
   */
  lemma LastAnswerWins(p: Package, truckId: int, time: real, exclude: set<Package>, U: set<Package>)
    requires p in U && Closed(U) && p.Eligible(truckId, time)
    ensures var deps := Without(p.associated, exclude + {p});
            var n := |deps|;
            n == 0 ==> Availability(p, truckId, time, exclude, U).0 && Availability(p, truckId, time, exclude, U).1 == exclude + {p}
    ensures var deps := Without(p.associated, exclude + {p});
            var n := |deps|;
            var E1 := exclude + {p};
            (forall d :: d in deps ==> d in U) &&
            (n > 0 ==>
               var before := AskAll(deps[..n - 1], true, E1, truckId, time, U, E1);
               Availability(p, truckId, time, exclude, U) == Availability(deps[n - 1], truckId, time, before.1, U))
  {
    var E1 := exclude + {p};
    var deps := Without(p.associated, E1);
    var n := |deps|;
    forall d | d in deps ensures d in U {
      var i :| 0 <= i < |p.associated| && p.associated[i] == d;
    }
    if n > 0 {
      assert deps == deps[..n - 1] + [deps[n - 1]];
      AskAllSnoc(deps[..n - 1], deps[n - 1], true, E1, truckId, time, U, E1);
    }
  }

  /**
   * An associate that is not available does not make the package unavailable
   * when a later associate is: with associates [a, b], a at a wrong address and
   * b eligible with none of its own, is_available answers true, while the
   * conjunction of the associates' answers would be false.
   */
  lemma NotTheConjunction(p: Package, a: Package, b: Package, truckId: int, time: real)
    requires p != a && p != b && a != b
    requires p.associated == [a, b] && b.associated == [] && a.associated == []
    requires p.Eligible(truckId, time) && a.wrongAddress && b.Eligible(truckId, time)
    ensures Closed({p, a, b})
    ensures Availability(p, truckId, time, {}, {p, a, b}).0
    ensures Availability(p, truckId, time, {}, {p, a, b}).1 == {p, b}
    ensures !Availability(a, truckId, time, {p}, {p, a, b}).0
  {
    var U := {p, a, b};
    forall q, i | q in U && 0 <= i < |q.associated| ensures q.associated[i] in U {
      assert q == p;
    }
    var E1: set<Package> := {} + {p};
    assert Without([a, b], E1) == [a, b];
    assert Without(b.associated, E1 + {b}) == [];
    // b alone: eligible with nothing to ask
    var vb := Availability(b, truckId, time, E1, U);
    assert AskAll([], true, E1 + {b}, truckId, time, U, E1 + {b}).0;
    assert vb.0 && vb.1 == {p, b};
    // a alone: refused at once
    var va := Availability(a, truckId, time, E1, U);
    assert !va.0 && va.1 == E1;
    // p asks a, then b
    assert [a, b][1..] == [b] && [b][1..] == [];
    var done := AskAll([], vb.0, vb.1, truckId, time, U, E1);
    assert done.0 == vb.0 && done.1 == vb.1;
    var last := AskAll([b], va.0, va.1, truckId, time, U, E1);
    assert last.0 == vb.0 && last.1 == vb.1;
    var all := AskAll([a, b], true, E1, truckId, time, U, E1);
    assert all.0 == last.0 && all.1 == last.1;
  }

  /**
   * The set object that the default argument of is_available stands for:
   * Python creates it once, when the method is defined, and every call that
   * does not pass its own set adds to this same one.
   */
  class DefaultExclude {
    var items: set<Package>

    constructor ()
      ensures items == {}
    {
      items := {};
    }
  }

  class Package {
    const id: int
    var address: string
    const city: string
    const state: string
    var zip: string
    const mass: int
    const deadline: int
    var addressZip: string
    var status: Status
    var wrongAddress: bool
    var requiredTruck: Option<int>
    var loadedAt: Option<real>
    var deliveredBy: Option<int>
    var deliveredAt: Option<real>
    var availableAt: real
    var deliveryNumber: int
    var associatedIds: set<int>
    /** Packages to be delivered together with this one (a set in Python; kept in insertion order). */
    var associated: seq<Package>

    /** The state __init__ leaves a package in, the note applied last. */
    ghost predicate FreshFrom(r: PackageRecord)
      reads this
    {
      Parsed(r) && associated == []
    }

    /** The fields __init__ sets from the row, the note applied last: all but the associated packages. */
    ghost predicate Parsed(r: PackageRecord)
      reads this`address, this`zip, this`addressZip, this`status, this`wrongAddress, this`requiredTruck,
            this`loadedAt, this`deliveredBy, this`deliveredAt, this`availableAt, this`deliveryNumber,
            this`associatedIds
    {
      var note := ClassifyNote(r.notes);
      id == r.id && address == r.address && city == r.city && state == r.state && zip == r.zip &&
      mass == r.mass && Some(deadline) == MinutesFromString(r.deadline) &&
      status == AtTheHub && loadedAt == None && deliveredBy == None && deliveredAt == None &&
      deliveryNumber == 0 &&
      addressZip == AddressZipOf(r) &&
      wrongAddress == note.WrongAddress? &&
      availableAt == (match note
                      case AvailableFrom(m) => m as real
                      case WrongAddress => WrongAddressFixTime as real
                      case _ => 0.0) &&
      requiredTruck == (if note.RequiresTruck? then Some(note.truck) else None) &&
      associatedIds == (if note.DeliveredWith? then note.ids else {})
    }

    /** Every field but the associated packages is as it was. */
    twostate predicate Kept()
      reads this
    {
      address == old(address) && zip == old(zip) && addressZip == old(addressZip) && status == old(status) &&
      wrongAddress == old(wrongAddress) && requiredTruck == old(requiredTruck) && loadedAt == old(loadedAt) &&
      deliveredBy == old(deliveredBy) && deliveredAt == old(deliveredAt) && availableAt == old(availableAt) &&
      deliveryNumber == old(deliveryNumber) && associatedIds == old(associatedIds)
    }

    /** What __init__ set survives any change that keeps those fields. */
    twostate lemma KeptParsed(r: PackageRecord)
      requires old(Parsed(r)) && Kept()
      ensures Parsed(r)
    {
    }

    /** Package(...): Python raises when the deadline does not parse, so it is required here. */
    constructor (r: PackageRecord)
      requires MinutesFromString(r.deadline).Some?
      ensures FreshFrom(r)
    {
      id := r.id;
      address := r.address;
      city := r.city;
      state := r.state;
      zip := r.zip;
      mass := r.mass;
      deadline := MinutesFromString(r.deadline).value;
      status := AtTheHub;
      loadedAt := None;
      deliveredBy := None;
      deliveredAt := None;
      deliveryNumber := 0;
      associated := [];
      addressZip := StandardizeAddress(r.address + " (" + r.zip + ")");
      wrongAddress := false;
      availableAt := 0.0;
      requiredTruck := None;
      associatedIds := {};
      var note := ClassifyNote(r.notes);
      match note {
        case NoNote =>
        case AvailableFrom(m) =>
          availableAt := m as real;
        case RequiresTruck(t) =>
          requiredTruck := Some(t);
        case DeliveredWith(ids) =>
          associatedIds := ids;
        case WrongAddress =>
          addressZip := "";
          KnownTimes();
          availableAt := MinutesFromString("10:20 am").value as real;
          wrongAddress := true;
      }
    }

    predicate IsDelivered()
      reads this
    {
      status == Delivered
    }

    predicate AtTheHubNow()
      reads this
    {
      status == AtTheHub
    }

    /** is_urgent: waiting at the hub, due before the end of the day, and already arrived. */
    predicate IsUrgent(time: real)
      reads this
    {
      status == AtTheHub && deadline < EOD && availableAt <= time
    }

    /** Once urgent, a package stays urgent at every later time while its state is unchanged. */
    lemma UrgentStaysUrgent(t1: real, t2: real)
      requires t1 <= t2 && IsUrgent(t1)
      ensures IsUrgent(t2)
    {
    }

    /** correct_address_available: the address is wrong and the correction has arrived. */
    predicate CorrectAddressAvailable(time: real)
      reads this
    {
      wrongAddress && availableAt <= time
    }

    /** The checks is_available makes of the package itself before looking at its associates. */
    predicate Eligible(truckId: int, truckTime: real)
      reads this
    {
      !wrongAddress && availableAt <= truckTime && status == AtTheHub &&
      (requiredTruck.None? || requiredTruck.value == truckId)
    }

    /** An eligible package is urgent exactly when its deadline falls before the end of the day. */
    lemma EligibleUrgent(truckId: int, truckTime: real)
      requires Eligible(truckId, truckTime)
      ensures IsUrgent(truckTime) <==> deadline < EOD
    {
    }

    /** The status `brief` shows for a time. */
    function BriefStatus(time: real): Status
      reads this
    {
      StatusAt(loadedAt, deliveredAt, time)
    }

    /**
     * is_available. `exclude` is the set Python mutates (a shared default
     * argument unless the caller passes one): it comes in and goes out. Each
     * associate not yet excluded is asked in turn and the answer is that of
     * the LAST one asked, not the conjunction; `U` is a set of packages closed
     * under association that bounds the recursion.
     */
    method IsAvailable(truckId: int, truckTime: real, exclude: set<Package>, ghost U: set<Package>)
      returns (ok: bool, excluded: set<Package>)
      requires this in U && Closed(U)
      ensures exclude <= excluded <= exclude + U
      ensures !Eligible(truckId, truckTime) ==> !ok && excluded == exclude
      ensures Eligible(truckId, truckTime) ==> this in excluded
      ensures ok ==> Eligible(truckId, truckTime)
      ensures Eligible(truckId, truckTime) && (forall d :: d in associated ==> d in exclude + {this}) ==>
                ok && excluded == exclude + {this}
      ensures ok == Availability(this, truckId, truckTime, exclude, U).0
      ensures excluded == Availability(this, truckId, truckTime, exclude, U).1
      decreases |U - (exclude + {this})|
    {
      if wrongAddress {
        return false, exclude;
      }
      if availableAt > truckTime {
        return false, exclude;
      }
      if status != AtTheHub {
        return false, exclude;
      }
      if requiredTruck.Some? && requiredTruck.value != truckId {
        return false, exclude;
      }
      ok := true;
      excluded := exclude + {this};
      var deps := Without(associated, excluded);
      ghost var E1 := excluded;
      forall d | d in deps ensures d in U {
        var j :| 0 <= j < |associated| && associated[j] == d;
      }
      for i := 0 to |deps|
        invariant E1 <= excluded <= E1 + U
        invariant i == 0 ==> ok && excluded == E1
        invariant AskAll(deps[i..], ok, excluded, truckId, truckTime, U, E1).0 == AskAll(deps, true, E1, truckId, truckTime, U, E1).0
        invariant AskAll(deps[i..], ok, excluded, truckId, truckTime, U, E1).1 == AskAll(deps, true, E1, truckId, truckTime, U, E1).1
      {
        var d := deps[i];
        assert deps[i..][1..] == deps[i + 1..];
        SubsetCard(U - (excluded + {d}), (U - E1) - {d});
        ok, excluded := d.IsAvailable(truckId, truckTime, excluded, U);
      }
    }

    /**
     * set_enroute: refused when the package is already EN_ROUTE (a DELIVERED
     * one is accepted) or when a required truck other than this one is set,
     * a required truck 0 counting as none.
     */
    method SetEnroute(truckId: int, truckTime: real) returns (r: Outcome<Error>)
      modifies `status, `deliveredBy, `loadedAt
      ensures old(status) == EnRoute ==> r == Fail(AlreadyEnRoute)
      ensures (old(status) != EnRoute && old(requiredTruck).Some? &&
               old(requiredTruck).value !in {0, truckId}) ==> r == Fail(WrongTruck)
      ensures r.Fail? ==> unchanged(this)
      ensures r.Pass? <==> old(status) != EnRoute &&
                           (old(requiredTruck).None? || old(requiredTruck).value in {0, truckId})
      ensures r.Pass? ==> status == EnRoute && deliveredBy == Some(truckId) && loadedAt == Some(truckTime)
      ensures r.Pass? ==> deliveredAt == old(deliveredAt) && deliveryNumber == old(deliveryNumber) &&
                          addressZip == old(addressZip) && wrongAddress == old(wrongAddress) &&
                          availableAt == old(availableAt) && requiredTruck == old(requiredTruck) &&
                          associated == old(associated) && address == old(address) && zip == old(zip) &&
                          associatedIds == old(associatedIds)
    {
      if status == EnRoute {
        return Fail(AlreadyEnRoute);
      }
      var required := if requiredTruck.Some? && requiredTruck.value != 0 then requiredTruck.value else truckId;
      if required != truckId {
        return Fail(WrongTruck);
      }
      deliveredBy := Some(truckId);
      loadedAt := Some(truckTime);
      status := EnRoute;
      return Pass;
    }

    /** complete_delivery: refused on a DELIVERED package; records the time and the trip number. */
    method CompleteDelivery(truckTime: real, truckDelivered: int) returns (r: Outcome<Error>)
      modifies `status, `deliveredAt, `deliveryNumber
      ensures r.Fail? <==> old(status) == Delivered
      ensures r.Fail? ==> r.error == AlreadyDelivered && unchanged(this)
      ensures r.Pass? ==> status == Delivered && deliveredAt == Some(truckTime) && deliveryNumber == truckDelivered
      ensures r.Pass? ==> loadedAt == old(loadedAt) && deliveredBy == old(deliveredBy) &&
                          addressZip == old(addressZip) && wrongAddress == old(wrongAddress) &&
                          availableAt == old(availableAt) && requiredTruck == old(requiredTruck) &&
                          associated == old(associated) && address == old(address) && zip == old(zip) &&
                          associatedIds == old(associatedIds)
    {
      if status == Delivered {
        return Fail(AlreadyDelivered);
      }
      status := Delivered;
      deliveredAt := Some(truckTime);
      deliveryNumber := truckDelivered;
      return Pass;
    }

    /** associated.add(q): q joins the associated packages unless it is one already. */
    method Link(q: Package)
      modifies this
      ensures associated == AddOne(old(associated), q)
      ensures forall x :: x in associated <==> x in old(associated) || x == q
      ensures status == old(status) && availableAt == old(availableAt) && requiredTruck == old(requiredTruck) &&
              loadedAt == old(loadedAt) && deliveredAt == old(deliveredAt) && deliveredBy == old(deliveredBy) &&
              deliveryNumber == old(deliveryNumber) && wrongAddress == old(wrongAddress) &&
              addressZip == old(addressZip) && address == old(address) && zip == old(zip) &&
              associatedIds == old(associatedIds)
    {
      associated := AddOne(associated, q);
    }

    /** update_address: the corrected address replaces the wrong one. */
    method UpdateAddress()
      modifies this
      ensures !wrongAddress && addressZip == CorrectedAddressZip
      ensures address == CorrectedAddress && zip == CorrectedZip
      ensures status == old(status) && availableAt == old(availableAt) && requiredTruck == old(requiredTruck) &&
              loadedAt == old(loadedAt) && deliveredAt == old(deliveredAt) && deliveredBy == old(deliveredBy) &&
              deliveryNumber == old(deliveryNumber) && associated == old(associated) &&
              associatedIds == old(associatedIds)
    {
      wrongAddress := false;
      addressZip := CorrectedAddressZip;
      address := CorrectedAddress;
      zip := CorrectedZip;
    }
  }

  /** Package(*line) with the deadline parse that may raise made explicit. */
  method NewPackage(r: PackageRecord) returns (p: Result<Package, Error>)
    ensures p.Err? <==> MinutesFromString(r.deadline).None?
    ensures p.Err? ==> p.error == BadTime
    ensures p.Ok? ==> fresh(p.value) && p.value.FreshFrom(r)
  {
    if MinutesFromString(r.deadline).None? {
      return Err(BadTime);
    }
    var q := new Package(r);
    return Ok(q);
  }
}
