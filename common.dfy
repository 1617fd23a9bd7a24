/**
 * Constants and string helpers shared by the whole application:
 * the end-of-day sentinel, the "HH:MM" formatter and the address normaliser.
 */
module Common {

  /** End of day, in minutes since midnight; also the deadline of an "EOD" package. */
  const EOD: int := 60 * 24

  lemma EodIsMidnight()
    ensures EOD == 1440 && EOD % 60 == 0 && EOD / 60 == 24
  {
  }

  // ---------------------------------------------------------------------------
  // Numbers and their decimal form
  // ---------------------------------------------------------------------------

  /** Python's int() applied to a float: truncation toward zero. */
  function Trunc(x: real): (n: int)
    ensures x >= 0.0 ==> n as real <= x < n as real + 1.0
    ensures x < 0.0 ==> n as real - 1.0 < x <= n as real
  {
    if x >= 0.0 then x.Floor else -((-x).Floor)
  }

  predicate IsDigit(c: char) {
    '0' <= c <= '9'
  }

  predicate AllDigits(s: string) {
    forall i :: 0 <= i < |s| ==> IsDigit(s[i])
  }

  function DigitChar(d: nat): (c: char)
    requires d < 10
    ensures IsDigit(c)
  {
    ['0', '1', '2', '3', '4', '5', '6', '7', '8', '9'][d]
  }

  function DigitValue(c: char): (d: nat)
    requires IsDigit(c)
    ensures d < 10
  {
    (c as int - '0' as int) as nat
  }

  /** Python's str() of a non-negative int. */
  function Digits(n: nat): (s: string)
    ensures |s| >= 1 && AllDigits(s)
  {
    if n < 10 then [DigitChar(n)] else Digits(n / 10) + [DigitChar(n % 10)]
  }

  /** The value of a string of decimal digits (Python's int() on such a string). */
  function DecimalValue(s: string): (n: nat)
    requires AllDigits(s)
  {
    if s == [] then 0 else DecimalValue(s[..|s| - 1]) * 10 + DigitValue(s[|s| - 1])
  }

  lemma DigitCharValue(d: nat)
    requires d < 10
    ensures DigitValue(DigitChar(d)) == d
  {
  }

  /** Decimal printing and parsing are inverse. */
  lemma {:induction false} DigitsRoundTrip(n: nat)
    ensures DecimalValue(Digits(n)) == n
  {
    var s := Digits(n);
    if n < 10 {
      DigitCharValue(n);
    } else {
      DigitsRoundTrip(n / 10);
      assert s[..|s| - 1] == Digits(n / 10);
      DigitCharValue(n % 10);
    }
  }

  /** A leading zero does not change the value of a digit string. */
  lemma {:induction false} LeadingZero(s: string)
    requires AllDigits(s)
    ensures AllDigits("0" + s) && DecimalValue("0" + s) == DecimalValue(s)
  {
    if s != [] {
      var t := "0" + s;
      assert t[..|t| - 1] == "0" + s[..|s| - 1];
      LeadingZero(s[..|s| - 1]);
    }
  }

  /** Python's format(n, '02'): at least two characters, zero-padded, sign first. */
  function Pad2(n: int): string
  {
    if n < 0 then "-" + Digits(-n)
    else if n < 10 then "0" + Digits(n)
    else Digits(n)
  }

  /** A non-negative field is printed as at least two digits that read back as the field. */
  lemma Pad2RoundTrip(n: nat)
    ensures |Pad2(n)| >= 2 && AllDigits(Pad2(n)) && DecimalValue(Pad2(n)) == n
    ensures n < 100 ==> |Pad2(n)| == 2
  {
    DigitsRoundTrip(n);
    if n < 10 {
      LeadingZero(Digits(n));
    } else if n < 100 {
      assert Digits(n) == Digits(n / 10) + [DigitChar(n % 10)];
    }
  }

  // ---------------------------------------------------------------------------
  // timeFromMinutes
  // ---------------------------------------------------------------------------

  /** The hours field: int(total_minutes / 60). */
  function HoursField(totalMinutes: real): int {
    Trunc(totalMinutes / 60.0)
  }

  /** The minutes field: int(total_minutes) % 60, with Python's floor modulo. */
  function MinutesField(totalMinutes: real): (m: int)
    ensures 0 <= m < 60
  {
    Trunc(totalMinutes) % 60
  }

  /** Formats a number of minutes since midnight as "HH:MM". */
  function TimeFromMinutes(totalMinutes: real): string
  {
    Pad2(HoursField(totalMinutes)) + ":" + Pad2(MinutesField(totalMinutes))
  }

  /**
   * For a whole number of minutes h*60+m with 0 <= m < 60 the text holds h,
   * a colon and m, each as at least two digits that read back as h and m.
   */
  lemma TimeFromMinutesRoundTrip(h: nat, m: nat)
    requires m < 60
    ensures var s := TimeFromMinutes((h * 60 + m) as real);
            var k := |Pad2(h)|;
            k >= 2 && |s| == k + 3 && s[k] == ':' &&
            AllDigits(s[..k]) && DecimalValue(s[..k]) == h &&
            AllDigits(s[k + 1..]) && DecimalValue(s[k + 1..]) == m
  {
    var t := (h * 60 + m) as real;
    assert t / 60.0 == h as real + m as real / 60.0;
    assert HoursField(t) == h;
    assert Trunc(t) == h * 60 + m;
    assert MinutesField(t) == m;
    Pad2RoundTrip(h);
    Pad2RoundTrip(m);
    var s := TimeFromMinutes(t);
    var k := |Pad2(h)|;
    assert s[..k] == Pad2(h);
    assert s[k + 1..] == Pad2(m);
  }

  // ---------------------------------------------------------------------------
  // standardize_address
  // ---------------------------------------------------------------------------

  /** Python's str.isspace() for one character. */
  predicate IsSpace(c: char) {
    c == ' ' || ('\t' <= c <= '\r') || ('\U{1c}' <= c <= '\U{1f}') ||
    c == '\U{85}' || c == '\U{a0}' || c == '\U{1680}' || ('\U{2000}' <= c <= '\U{200a}') ||
    c == '\U{2028}' || c == '\U{2029}' || c == '\U{202f}' || c == '\U{205f}' || c == '\U{3000}'
  }

  function StripLeft(s: string): (r: string)
    ensures |r| <= |s| && r == s[|s| - |r|..]
    ensures r != [] ==> !IsSpace(r[0])
  {
    if s != [] && IsSpace(s[0]) then StripLeft(s[1..]) else s
  }

  function StripRight(s: string): (r: string)
    ensures |r| <= |s| && r == s[..|r|]
    ensures r != [] ==> !IsSpace(r[|r| - 1])
  {
    if s != [] && IsSpace(s[|s| - 1]) then StripRight(s[..|s| - 1]) else s
  }

  /** Python's str.strip(): drops leading and trailing whitespace. */
  function Strip(s: string): (r: string)
    ensures r != [] ==> !IsSpace(r[0]) && !IsSpace(r[|r| - 1])
  {
    StripRight(StripLeft(s))
  }

  lemma StripOfStripped(s: string)
    requires s != [] ==> !IsSpace(s[0]) && !IsSpace(s[|s| - 1])
    ensures Strip(s) == s
  {
  }

  function Upper(c: char): char {
    if 'a' <= c <= 'z' then (c as int - 32) as char else c
  }

  /**
   * Does c match the lower-case ASCII letter `lower` under re.IGNORECASE?
   * Python's Unicode case folding also lets the long s (U+017F) match 's'.
   */
  predicate MatchesLetter(c: char, lower: char) {
    c == lower || c == Upper(lower) || (lower == 's' && c == '\U{17f}')
  }

  /** Does s begin with `word`, compared case-insensitively? */
  predicate StartsWithWord(s: string, word: string) {
    |word| <= |s| && forall i :: 0 <= i < |word| ==> MatchesLetter(s[i], word[i])
  }

  /**
   * re.sub(r'(\n|east|north|south|west)', ..., s, flags=re.I): scanning left
   * to right without overlap, a newline becomes a space and each compass word
   * becomes its upper-case initial.
   */
  function Substitute(s: string): (r: string)
    ensures |r| <= |s|
    decreases |s|
  {
    if s == [] then []
    else if s[0] == '\n' then " " + Substitute(s[1..])
    else if StartsWithWord(s, "east") then "E" + Substitute(s[4..])
    else if StartsWithWord(s, "north") then "N" + Substitute(s[5..])
    else if StartsWithWord(s, "south") then "S" + Substitute(s[5..])
    else if StartsWithWord(s, "west") then "W" + Substitute(s[4..])
    else [s[0]] + Substitute(s[1..])
  }

  /** Strips the address, then abbreviates compass words and removes line breaks. */
  function StandardizeAddress(addr: string): string {
    Substitute(Strip(addr))
  }

  /** The substitution leaves no line break behind. */
  lemma {:induction false} SubstituteHasNoNewline(s: string)
    ensures '\n' !in Substitute(s)
    decreases |s|
  {
    if s == [] {
    } else if s[0] == '\n' {
      SubstituteHasNoNewline(s[1..]);
    } else if StartsWithWord(s, "east") || StartsWithWord(s, "west") {
      SubstituteHasNoNewline(s[4..]);
    } else if StartsWithWord(s, "north") || StartsWithWord(s, "south") {
      SubstituteHasNoNewline(s[5..]);
    } else {
      SubstituteHasNoNewline(s[1..]);
    }
  }

  /** A standardised address never contains a line break. */
  lemma StandardizedHasNoNewline(addr: string)
    ensures '\n' !in StandardizeAddress(addr)
  {
    SubstituteHasNoNewline(Strip(addr));
  }

  /** The first output character comes from the first input character. */
  lemma SubstituteFirst(s: string)
    requires s != [] && !IsSpace(s[0])
    ensures Substitute(s) != [] && !IsSpace(Substitute(s)[0])
  {
  }

  /** How much of s the substitution consumes at the front, and the character it writes for it. */
  function Step(s: string): (nat, char)
    requires s != []
  {
    if s[0] == '\n' then (1, ' ')
    else if StartsWithWord(s, "east") then (4, 'E')
    else if StartsWithWord(s, "north") then (5, 'N')
    else if StartsWithWord(s, "south") then (5, 'S')
    else if StartsWithWord(s, "west") then (4, 'W')
    else (1, s[0])
  }

  /** The substitution writes one character for the front of s and resumes after it. */
  lemma SubstituteUnfold(s: string)
    requires s != []
    ensures 1 <= Step(s).0 <= |s|
    ensures Substitute(s) == [Step(s).1] + Substitute(s[Step(s).0..])
  {
    if s[0] == '\n' {
    } else if StartsWithWord(s, "east") {
    } else if StartsWithWord(s, "north") {
    } else if StartsWithWord(s, "south") {
    } else if StartsWithWord(s, "west") {
    }
  }

  /** A non-space last input character yields a non-space last output character. */
  lemma {:induction false} SubstituteLast(s: string)
    requires s != [] && !IsSpace(s[|s| - 1])
    ensures Substitute(s) != [] && !IsSpace(Substitute(s)[|Substitute(s)| - 1])
    decreases |s|
  {
    SubstituteUnfold(s);
    var n, c := Step(s).0, Step(s).1;
    var rest := s[n..];
    if n < |s| {
      assert rest[|rest| - 1] == s[|s| - 1];
      SubstituteLast(rest);
      assert Substitute(s)[|Substitute(s)| - 1] == Substitute(rest)[|Substitute(rest)| - 1];
    } else {
      assert Substitute(rest) == [];
      assert Substitute(s)[|Substitute(s)| - 1] == c;
    }
  }

  /**
   * Stripping happens before substitution, and the substitution can neither
   * create leading nor trailing whitespace: a standardised address is already
   * stripped.
   */
  lemma StandardizedIsStripped(addr: string)
    ensures Strip(StandardizeAddress(addr)) == StandardizeAddress(addr)
  {
    var s := Strip(addr);
    if s != [] {
      SubstituteFirst(s);
      SubstituteLast(s);
    }
    StripOfStripped(Substitute(s));
  }

  /** A character that can start neither a newline nor a compass word. */
  predicate Inert(c: char) {
    c != '\n' && !MatchesLetter(c, 'e') && !MatchesLetter(c, 'n') &&
    !MatchesLetter(c, 's') && !MatchesLetter(c, 'w')
  }

  lemma HeadTail(a: string, b: string)
    requires a != []
    ensures [a[0]] + (a[1..] + b) == a + b
  {
  }

  /** No character of s can start a match. */
  predicate AllInert(s: string) {
    forall i :: 0 <= i < |s| ==> Inert(s[i])
  }

  /** A word match needs its first letter. */
  lemma StartsWithWordHead(s: string, word: string)
    requires word != [] && StartsWithWord(s, word)
    ensures s != [] && MatchesLetter(s[0], word[0])
  {
  }

  /** An inert character in front is copied and the scan resumes right after it. */
  lemma SubstituteInertCons(c: char, t: string)
    requires Inert(c)
    ensures Substitute([c] + t) == [c] + Substitute(t)
  {
    SubstituteInertHead([c] + t);
    assert ([c] + t)[1..] == t;
  }

  lemma SubstituteInertHead(s: string)
    requires s != [] && Inert(s[0])
    ensures Substitute(s) == [s[0]] + Substitute(s[1..])
  {
    if StartsWithWord(s, "east") { StartsWithWordHead(s, "east"); }
    if StartsWithWord(s, "north") { StartsWithWordHead(s, "north"); }
    if StartsWithWord(s, "south") { StartsWithWordHead(s, "south"); }
    if StartsWithWord(s, "west") { StartsWithWordHead(s, "west"); }
  }

  /** Characters that cannot start a match are copied unchanged. */
  lemma {:induction false} SubstituteInertPrefix(a: string, b: string)
    requires AllInert(a)
    ensures Substitute(a + b) == a + Substitute(b)
    decreases |a|
  {
    if a != [] {
      assert Inert(a[0]) && AllInert(a[1..]);
      SubstituteInertPrefix(a[1..], b);
      SubstituteInertCons(a[0], a[1..] + b);
      HeadTail(a, b);
      HeadTail(a, Substitute(b));
    } else {
      assert a + b == b;
    }
  }

  /** An address made only of inert characters is left as it is (once stripped). */
  lemma InertAddressUnchanged(addr: string)
    requires AllInert(addr)
    requires addr != [] ==> !IsSpace(addr[0]) && !IsSpace(addr[|addr| - 1])
    ensures StandardizeAddress(addr) == addr
  {
    calc {
      StandardizeAddress(addr);
      == { StripOfStripped(addr); }
      Substitute(addr);
      == { assert addr + [] == addr; }
      Substitute(addr + []);
      == { SubstituteInertPrefix(addr, []); }
      addr + Substitute([]);
      == { assert addr + [] == addr; }
      addr;
    }
  }
}
