/** Citation markers in answer text: finding them, cutting text into spans and
    rewriting them in canonical form.  Regular expressions are outside: their
    matches come in as ranges, in order and disjoint per pattern. */
module Markup {
  import opened Prelude
  import opened Sorting
  import opened Splice

  const MAX_SAFE_INTEGER: int := 9_007_199_254_740_991

  // -------------------------------------------------------------- characters

  predicate IsDigit(c: char) { '0' <= c <= '9' }

  /** The characters that the original's patterns and trim treat as blank. */
  predicate IsSpace(c: char) {
    || '\t' <= c <= '\r' || c == ' ' || '\U{2000}' <= c <= '\U{200A}'
    || c == '\U{00A0}' || c == '\U{1680}' || c == '\U{2028}' || c == '\U{2029}'
    || c == '\U{202F}' || c == '\U{205F}' || c == '\U{3000}' || c == '\U{FEFF}'
  }

  function TrimStart(s: string): string {
    if s != [] && IsSpace(s[0]) then TrimStart(s[1..]) else s
  }

  function TrimEnd(s: string): string {
    if s != [] && IsSpace(s[|s| - 1]) then TrimEnd(s[..|s| - 1]) else s
  }

  function Trim(s: string): string { TrimEnd(TrimStart(s)) }

  function LeadingBlanks(s: string): nat {
    if s != [] && IsSpace(s[0]) then 1 + LeadingBlanks(s[1..]) else 0
  }

  function TrailingBlanks(s: string): nat {
    if s != [] && IsSpace(s[|s| - 1]) then 1 + TrailingBlanks(s[..|s| - 1]) else 0
  }

  predicate Blank(s: string) { BlankFrom(s, 0, |s|) }

  predicate BlankFrom(s: string, a: nat, b: nat)
    requires b <= |s|
  {
    forall i | a <= i < b :: IsSpace(s[i])
  }

  lemma {:induction false} LeadingBlanksLead(s: string)
    ensures LeadingBlanks(s) <= |s| && TrimStart(s) == s[LeadingBlanks(s)..]
    ensures BlankFrom(s, 0, LeadingBlanks(s))
    ensures LeadingBlanks(s) < |s| ==> !IsSpace(s[LeadingBlanks(s)])
  {
    if s != [] && IsSpace(s[0]) {
      LeadingBlanksLead(s[1..]);
      assert forall i | 1 <= i < LeadingBlanks(s) :: s[i] == s[1..][i - 1];
    }
  }

  lemma {:induction false} TrailingBlanksTrail(s: string)
    ensures TrailingBlanks(s) <= |s| && TrimEnd(s) == s[..|s| - TrailingBlanks(s)]
    ensures BlankFrom(s, |s| - TrailingBlanks(s), |s|)
    ensures TrailingBlanks(s) < |s| ==> !IsSpace(s[|s| - TrailingBlanks(s) - 1])
  {
    if s != [] && IsSpace(s[|s| - 1]) {
      TrailingBlanksTrail(s[..|s| - 1]);
    }
  }

  lemma {:induction false} TrimStartCuts(s: string, k: nat)
    requires k <= |s| && BlankFrom(s, 0, k) && (k < |s| ==> !IsSpace(s[k]))
    ensures TrimStart(s) == s[k..]
  {
    if k > 0 {
      TrimStartCuts(s[1..], k - 1);
    }
  }

  lemma {:induction false} TrimEndCuts(s: string, k: nat)
    requires k <= |s| && BlankFrom(s, k, |s|) && (k > 0 ==> !IsSpace(s[k - 1]))
    ensures TrimEnd(s) == s[..k]
    decreases |s|
  {
    if k < |s| {
      TrimEndCuts(s[..|s| - 1], k);
      assert s[..|s| - 1][..k] == s[..k];
    }
  }

  /** Trimming takes off exactly the blanks at both ends. */
  lemma TrimMeans(s: string) returns (x: string, y: string)
    ensures s == x + Trim(s) + y && Blank(x) && Blank(y)
    ensures Trim(s) == "" <==> Blank(s)
    ensures Trim(s) != "" ==> !IsSpace(Trim(s)[0]) && !IsSpace(Trim(s)[|Trim(s)| - 1])
  {
    var rest := TrimStart(s);
    x := StartMeans(s);
    y := EndMeans(rest);
    Glue(x, TrimEnd(rest), y);
    BlankParts(x, TrimEnd(rest), y);
  }

  lemma StartMeans(s: string) returns (x: string)
    ensures Blank(x) && s == x + TrimStart(s) && (TrimStart(s) != "" ==> !IsSpace(TrimStart(s)[0]))
  {
    LeadingBlanksLead(s);
    x := s[..LeadingBlanks(s)];
  }

  lemma EndMeans(s: string) returns (y: string)
    ensures Blank(y) && s == TrimEnd(s) + y
    ensures TrimEnd(s) != "" ==> s != "" && TrimEnd(s)[0] == s[0] && !IsSpace(TrimEnd(s)[|TrimEnd(s)| - 1])
  {
    TrailingBlanksTrail(s);
    y := s[|s| - TrailingBlanks(s)..];
  }

  lemma BlankParts(x: string, middle: string, y: string)
    requires Blank(x) && Blank(y) && (middle != "" ==> !IsSpace(middle[0]))
    ensures middle == "" <==> Blank(x + middle + y)
  {
    if middle != "" {
      assert (x + middle + y)[|x|] == middle[0];
    }
  }

  lemma TrimIsStable(s: string)
    ensures Trim(Trim(s)) == Trim(s)
  {
    LeadingBlanksLead(s);
    TrailingBlanksTrail(TrimStart(s));
  }

  /** Blanks around a text are trimmed with its own. */
  lemma TrimForgetsBlanks(x: string, s: string, y: string)
    requires Blank(x) && Blank(y)
    ensures Trim(x + s + y) == Trim(s)
  {
    Glue(x, s, y);
    StartForgetsBlanks(x, s + y);
    if Blank(s) {
      StartForgetsBlanks(s, y);
      StartForgetsBlanks(y, "");
      StartForgetsBlanks(s, "");
      assert y + "" == y && s + "" == s;
    } else {
      StartLeavesEnd(s, y);
      EndForgetsBlanks(TrimStart(s), y);
    }
  }

  lemma {:induction false} StartForgetsBlanks(x: string, s: string)
    requires Blank(x)
    ensures TrimStart(x + s) == TrimStart(s)
  {
    if x == [] {
      assert x + s == s;
    } else {
      assert IsSpace(x[0]) && (x + s)[1..] == x[1..] + s;
      StartForgetsBlanks(x[1..], s);
    }
  }

  lemma {:induction false} StartLeavesEnd(s: string, y: string)
    requires !Blank(s)
    ensures TrimStart(s + y) == TrimStart(s) + y
  {
    assert (s + y)[0] == s[0];
    if IsSpace(s[0]) {
      assert (s + y)[1..] == s[1..] + y;
      assert !Blank(s[1..]) by {
        var i :| 0 <= i < |s| && !IsSpace(s[i]);
        assert s[1..][i - 1] == s[i];
      }
      StartLeavesEnd(s[1..], y);
    }
  }

  lemma {:induction false} EndForgetsBlanks(s: string, y: string)
    requires Blank(y)
    ensures TrimEnd(s + y) == TrimEnd(s)
  {
    if y == [] {
      assert s + y == s;
    } else {
      var n := |y| - 1;
      assert (s + y)[|s + y| - 1] == y[n] && (s + y)[..|s + y| - 1] == s + y[..n];
      EndForgetsBlanks(s, y[..n]);
    }
  }

  lemma {:induction false} StartStops(a: string, s: string)
    requires s != "" && !IsSpace(s[0])
    ensures TrimStart(a + s) == TrimStart(a) + s
  {
    if a == [] {
      assert a + s == s;
    } else if IsSpace(a[0]) {
      assert (a + s)[1..] == a[1..] + s;
      StartStops(a[1..], s);
    }
  }

  lemma {:induction false} EndStops(s: string, b: string)
    requires s != "" && !IsSpace(s[|s| - 1])
    ensures TrimEnd(s + b) == s + TrimEnd(b)
  {
    if b == [] {
      assert s + b == s;
    } else if IsSpace(b[|b| - 1]) {
      assert (s + b)[..|s + b| - 1] == s + b[..|b| - 1];
      EndStops(s, b[..|b| - 1]);
    }
  }

  // ------------------------------------------------------- numbers and markers

  function Digit(d: nat): (c: char)
    requires d < 10
    ensures IsDigit(c)
  {
    ('0' as int + d) as char
  }

  function DigitValue(c: char): nat
    requires IsDigit(c)
  {
    c as int - '0' as int
  }

  function Decimal(n: nat): (s: string)
    ensures s != [] && forall c | c in s :: IsDigit(c)
  {
    if n < 10 then [Digit(n)] else Decimal(n / 10) + [Digit(n % 10)]
  }

  function ReadDecimal(s: string): nat
    requires forall c | c in s :: IsDigit(c)
  {
    if s == [] then 0
    else
      assert forall c | c in s[..|s| - 1] :: c in s;
      10 * ReadDecimal(s[..|s| - 1]) + DigitValue(s[|s| - 1])
  }

  lemma {:induction false} ReadDecimalInverts(n: nat)
    ensures ReadDecimal(Decimal(n)) == n
  {
    if n < 10 {
      assert Decimal(n)[..0] == [];
    } else {
      ReadDecimalInverts(n / 10);
      assert Decimal(n)[..|Decimal(n)| - 1] == Decimal(n / 10);
    }
  }

  function Marker(n: nat): string { "[" + Decimal(n) + "]" }

  /** The canonical text of a citation: its markers with blanks between. */
  function Markers(numbers: seq<nat>): string {
    if numbers == [] then ""
    else if |numbers| == 1 then Marker(numbers[0])
    else Marker(numbers[0]) + " " + Markers(numbers[1..])
  }

  function Split(s: string, separator: char): seq<string> {
    if s == [] then [[]]
    else if s[0] == separator then [[]] + Split(s[1..], separator)
    else
      var rest := Split(s[1..], separator);
      [[s[0]] + rest[0]] + rest[1..]
  }

  function LeadingDigits(s: string): (d: string)
    ensures forall c | c in d :: IsDigit(c)
  {
    if s == [] || !IsDigit(s[0]) then [] else [s[0]] + LeadingDigits(s[1..])
  }

  /** parseInt in base ten of a trimmed part. */
  function ParseInt(s: string): Option<nat> {
    var digits := LeadingDigits(s);
    if digits == [] then None else Some(ReadDecimal(digits))
  }

  /** The numbers of a marker, its brackets taken off. */
  method ParseCitationNumbers(marker: string) returns (numbers: seq<Option<nat>>)
    requires |marker| >= 2
    ensures numbers == Parsed(Split(marker[1..|marker| - 1], ','))
  {
    numbers := [];
    var parts := Split(marker[1..|marker| - 1], ',');
    for i := 0 to |parts|
      invariant numbers == Parsed(parts[..i])
    {
      assert parts[..i + 1][..i] == parts[..i];
      numbers := numbers + [ParseInt(Trim(parts[i]))];
    }
    assert parts[..|parts|] == parts;
  }

  function Parsed(parts: seq<string>): seq<Option<nat>> {
    if parts == [] then []
    else Parsed(parts[..|parts| - 1]) + [ParseInt(Trim(parts[|parts| - 1]))]
  }

  lemma {:induction false} DigitsStayWhole(s: string)
    requires s != [] && forall c | c in s :: IsDigit(c)
    ensures Split(s, ',') == [s] && LeadingDigits(s) == s
    decreases |s|
  {
    assert s[0] in s;
    assert s == [s[0]] + s[1..];
    if |s| == 1 {
      assert s[1..] == [];
    } else {
      assert forall c | c in s[1..] :: c in s;
      DigitsStayWhole(s[1..]);
    }
  }

  lemma DigitsParse(s: string)
    requires s != [] && forall c | c in s :: IsDigit(c)
    ensures Parsed(Split(s, ',')) == [Some(ReadDecimal(s))]
  {
    DigitsStayWhole(s);
    assert s[0] in s && s[|s| - 1] in s;
    assert Trim(s) == s;
    assert [s][..0] == [];
  }

  /** Every canonical marker parses back to the number it was made from. */
  lemma MarkerParsesBack(n: nat)
    ensures |Marker(n)| >= 2
    ensures Parsed(Split(Marker(n)[1..|Marker(n)| - 1], ',')) == [Some(n)]
  {
    DigitsParse(Decimal(n));
    ReadDecimalInverts(n);
    assert Marker(n)[1..|Marker(n)| - 1] == Decimal(n);
  }

  /** A part of a marker: a number with nothing but blanks around it. */
  ghost predicate IsPadded(part: string, n: nat) {
    exists x, y :: Blank(x) && Blank(y) && part == x + Decimal(n) + y
  }

  lemma {:induction false} SplitParts(parts: seq<string>, text: string, separator: char)
    requires parts != [] && JoinedBy(text, parts, [separator])
    requires forall i | 0 <= i < |parts| :: separator !in parts[i]
    ensures Split(text, separator) == parts
    decreases |parts|, |text|
  {
    var part := parts[0];
    if part != [] {
      var rest := [part[1..]] + parts[1..];
      assert part[0] in part && text[0] == part[0];
      FirstPartShortens(text, parts, [separator]);
      assert forall c | c in part[1..] :: c in part;
      SplitParts(rest, text[1..], separator);
      assert [part[0]] + part[1..] == part;
    } else if |parts| > 1 {
      assert text[..1] == [] + [separator] && text[0] == text[..1][0];
      SplitParts(parts[1..], text[1..], separator);
    }
  }

  lemma FirstPartShortens(text: string, parts: seq<string>, separator: string)
    requires parts != [] && parts[0] != [] && JoinedBy(text, parts, separator)
    ensures text != [] && text[0] == parts[0][0]
    ensures JoinedBy(text[1..], [parts[0][1..]] + parts[1..], separator)
  {
    var shorter := [parts[0][1..]] + parts[1..];
    if |parts| > 1 {
      var n := |parts[0]| + |separator|;
      assert text[0] == text[..n][0];
      assert text[1..][..n - 1] == text[..n][1..] == parts[0][1..] + separator;
      assert text[1..][n - 1..] == text[n..] && shorter[1..] == parts[1..];
    }
  }

  lemma PaddedParses(part: string, n: nat)
    requires IsPadded(part, n)
    ensures ParseInt(Trim(part)) == Some(n) && ',' !in part
  {
    var x, y :| Blank(x) && Blank(y) && part == x + Decimal(n) + y;
    TrimForgetsBlanks(x, Decimal(n), y);
    DecimalParses(n);
    NoComma(x, Decimal(n), y);
  }

  lemma DecimalParses(n: nat)
    ensures ParseInt(Trim(Decimal(n))) == Some(n)
  {
    DigitsStayWhole(Decimal(n));
    DigitsAreTrim(Decimal(n));
    ReadDecimalInverts(n);
  }

  lemma DigitsAreTrim(digits: string)
    requires digits != [] && forall c | c in digits :: IsDigit(c)
    ensures Trim(digits) == digits
  {
    assert digits[0] in digits && digits[|digits| - 1] in digits;
    TrimStartCuts(digits, 0);
    TrimEndCuts(digits, |digits|);
  }

  lemma NoComma(x: string, digits: string, y: string)
    requires Blank(x) && Blank(y) && forall c | c in digits :: IsDigit(c)
    ensures ',' !in x + digits + y
  {
    assert forall c | c in x + digits + y :: c in x || c in digits || c in y;
  }

  /** However many numbers a marker lists, with whatever blanks around them, they
      are parsed in order. */
  lemma ListParses(marker: string, parts: seq<string>, numbers: seq<nat>)
    requires |marker| >= 2 && |parts| == |numbers| > 0
    requires JoinedBy(marker[1..|marker| - 1], parts, ",")
    requires forall i | 0 <= i < |parts| :: IsPadded(parts[i], numbers[i])
    ensures var parsed := Parsed(Split(marker[1..|marker| - 1], ','));
      |parsed| == |numbers| && forall i | 0 <= i < |numbers| :: parsed[i] == Some(numbers[i])
  {
    forall i | 0 <= i < |parts|
      ensures ParseInt(Trim(parts[i])) == Some(numbers[i]) && ',' !in parts[i]
    {
      PaddedParses(parts[i], numbers[i]);
    }
    SplitParts(parts, marker[1..|marker| - 1], ',');
    ParsedPartByPart(parts);
  }

  lemma {:induction false} ParsedPartByPart(parts: seq<string>)
    ensures |Parsed(parts)| == |parts| && forall i | 0 <= i < |parts| :: Parsed(parts)[i] == ParseInt(Trim(parts[i]))
  {
    if parts != [] {
      ParsedPartByPart(parts[..|parts| - 1]);
    }
  }

  // --------------------------------------------------------- citation numbers

  datatype MarkupError = NotPositive | OutOfRange(number: nat) | InvalidMarker | NotMapped

  predicate Accepted(number: nat, maximum: Option<nat>) {
    1 <= number <= MAX_SAFE_INTEGER && (maximum.Some? ==> number <= maximum.value)
  }

  method ValidateCitationNumbers(numbers: seq<nat>, maximum: Option<nat>) returns (error: Option<MarkupError>)
    ensures error.None? <==> forall n | n in numbers :: Accepted(n, maximum)
  {
    for i := 0 to |numbers|
      invariant forall k | 0 <= k < i :: Accepted(numbers[k], maximum)
    {
      assert numbers[i] in numbers;
      if !(1 <= numbers[i] <= MAX_SAFE_INTEGER) {
        return Some(NotPositive);
      }
      if maximum.Some? && numbers[i] > maximum.value {
        return Some(OutOfRange(numbers[i]));
      }
    }
    error := None;
  }

  /** A range such as 2-5 becomes its numbers in order; a falling range gives
      none, and a range that leaves 1 .. maximum is an error. */
  method ExpandCitationRange(start: nat, end: nat, maximum: nat)
    returns (r: Result<Option<seq<nat>>, MarkupError>)
    ensures start > end ==> r == Ok(None)
    ensures start <= end ==>
              (r.Ok? <==> 1 <= start && end <= maximum && end <= MAX_SAFE_INTEGER)
    ensures start <= end && r.Ok? ==>
              && r.value.Some?
              && |r.value.value| == end - start + 1
              && (forall i | 0 <= i < |r.value.value| :: r.value.value[i] == start + i)
              && (forall n | n in r.value.value :: Accepted(n, Some(maximum)))
  {
    if start > end {
      return Ok(None);
    }
    var error := ValidateCitationNumbers([start, end], Some(maximum));
    if error.Some? {
      return Err(error.value);
    }
    assert start in [start, end] && end in [start, end];
    var numbers: seq<nat> := [];
    for number := start to end + 1
      invariant |numbers| == number - start
      invariant forall i | 0 <= i < |numbers| :: numbers[i] == start + i
    {
      numbers := numbers + [number];
    }
    r := Ok(Some(numbers));
  }

  method ReadUniqueNumbers(values: seq<nat>) returns (numbers: seq<nat>)
    ensures numbers == Unique(values)
  {
    numbers := [];
    var seen: set<nat> := {};
    for i := 0 to |values|
      invariant numbers == Unique(values[..i])
      invariant forall x :: x in seen <==> x in values[..i]
    {
      assert values[..i + 1][..i] == values[..i];
      if values[i] !in seen {
        seen := seen + {values[i]};
        numbers := numbers + [values[i]];
      }
    }
    assert values[..|values|] == values;
  }

  // --------------------------------------------------------------- candidates

  datatype Range = Range(start: nat, end: nat)

  datatype Candidate = Candidate(start: nat, end: nat, escaped: bool, marker: string)

  /** How many backslashes stand right before an index. */
  function SlashesBefore(value: string, index: nat): nat
    requires index <= |value|
  {
    if index == 0 || value[index - 1] != '\\' then 0 else 1 + SlashesBefore(value, index - 1)
  }

  predicate Escaped(value: string, index: nat)
    requires index <= |value|
  {
    SlashesBefore(value, index) % 2 == 1
  }

  /** Exactly n backslashes stand right before an index. */
  ghost predicate IsRunOfSlashes(value: string, index: nat, n: nat) {
    && n <= index <= |value| && (forall i | index - n <= i < index :: value[i] == '\\')
    && (n < index ==> value[index - n - 1] != '\\')
  }

  lemma {:induction false} SlashesAre(value: string, index: nat)
    requires index <= |value|
    ensures IsRunOfSlashes(value, index, SlashesBefore(value, index))
  {
    if index > 0 && value[index - 1] == '\\' {
      SlashesAre(value, index - 1);
    }
  }

  /** Escaped exactly after an odd run of backslashes. */
  lemma EscapedExactlyWhen(value: string, index: nat)
    requires index <= |value|
    ensures Escaped(value, index) <==> exists n: nat :: IsRunOfSlashes(value, index, n) && n % 2 == 1
  {
    SlashesAre(value, index);
    var m := SlashesBefore(value, index);
    forall n: nat | IsRunOfSlashes(value, index, n)
      ensures n == m
    {
      assert IsRunOfSlashes(value, index, m);
    }
  }

  method IsEscaped(value: string, index: nat) returns (escaped: bool)
    requires index <= |value|
    ensures escaped == Escaped(value, index)
  {
    var slashCount, cursor := 0, index;
    while cursor > 0 && value[cursor - 1] == '\\'
      invariant 0 <= cursor <= index
      invariant slashCount + SlashesBefore(value, cursor) == SlashesBefore(value, index)
    {
      slashCount, cursor := slashCount + 1, cursor - 1;
    }
    escaped := slashCount % 2 == 1;
  }

  /** What a global pattern yields: non-empty ranges of the text, in order. */
  predicate MatchesOf(value: string, matches: seq<Range>) {
    && (forall i | 0 <= i < |matches| :: matches[i].start < matches[i].end <= |value|)
    && (forall i, j | 0 <= i < j < |matches| :: matches[i].end <= matches[j].start)
  }

  predicate Overlaps(c: Candidate, m: Range) {
    m.start < c.end && m.end > c.start
  }

  predicate Represents(c: Candidate, m: Range) {
    c.start == m.start && c.end == m.end
  }

  predicate Apart(a: Candidate, b: Candidate) {
    a.end <= b.start || b.end <= a.start
  }

  predicate TakenFrom(value: string, c: Candidate) {
    && c.start < c.end <= |value|
    && c.marker == value[c.start..c.end]
    && c.escaped == Escaped(value, c.start)
  }

  ghost predicate GoodCandidates(value: string, candidates: seq<Candidate>) {
    && (forall c | c in candidates :: TakenFrom(value, c))
    && Pairwise(Apart, candidates)
  }

  predicate Covers(candidates: seq<Candidate>, m: Range) {
    exists c | c in candidates :: Represents(c, m) || Overlaps(c, m)
  }

  predicate Meet(a: Range, b: Range) {
    a.start < b.end && b.start < a.end
  }

  /** Some candidate is what was matched at this range. */
  ghost predicate IsTaken(candidates: seq<Candidate>, m: Range) {
    exists c | c in candidates :: Represents(c, m)
  }

  ghost predicate MeetsNone(candidates: seq<Candidate>, m: Range) {
    forall c | c in candidates :: !Overlaps(c, m)
  }

  /** Candidates with those of some more matches, except for matches that overlap. */
  ghost predicate Extends(
    value: string, candidates: seq<Candidate>, matches: seq<Range>, extended: seq<Candidate>)
  {
    && GoodCandidates(value, extended) && candidates <= extended
    && (forall m: Range :: IsTaken(extended, m) <==>
          IsTaken(candidates, m) || (m in matches && MeetsNone(candidates, m)))
  }

  /** Adds the matches of one more pattern, except those that overlap. */
  method AppendMatches(value: string, candidates: seq<Candidate>, matches: seq<Range>)
    returns (extended: seq<Candidate>)
    requires GoodCandidates(value, candidates) && MatchesOf(value, matches)
    ensures Extends(value, candidates, matches, extended)
  {
    extended := candidates;
    for i := 0 to |matches|
      invariant Extends(value, candidates, matches[..i], extended)
    {
      var m := matches[i];
      if exists k :: 0 <= k < |extended| && Overlaps(extended[k], m) {
        MatchOverlaps(value, candidates, matches, i, extended);
      } else {
        var escaped := IsEscaped(value, m.start);
        var c := Candidate(m.start, m.end, escaped, value[m.start..m.end]);
        MatchIsAdded(value, candidates, matches, i, extended, c);
        extended := extended + [c];
      }
    }
    assert matches[..|matches|] == matches;
  }

  lemma MatchOverlaps(
    value: string, candidates: seq<Candidate>, matches: seq<Range>, i: nat, extended: seq<Candidate>)
    requires MatchesOf(value, matches) && i < |matches| && Extends(value, candidates, matches[..i], extended)
    requires exists k :: 0 <= k < |extended| && Overlaps(extended[k], matches[i])
    ensures Extends(value, candidates, matches[..i + 1], extended)
  {
    var k :| 0 <= k < |extended| && Overlaps(extended[k], matches[i]);
    assert matches[..i + 1] == matches[..i] + [matches[i]];
    var r := Range(extended[k].start, extended[k].end);
    assert extended[k] in extended && Represents(extended[k], r);
    assert IsTaken(extended, r);
    assert r !in matches[..i];
    var c :| c in candidates && Represents(c, r);
    assert !MeetsNone(candidates, matches[i]);
  }

  lemma MatchIsAdded(
    value: string, candidates: seq<Candidate>, matches: seq<Range>, i: nat, extended: seq<Candidate>, c: Candidate)
    requires MatchesOf(value, matches) && i < |matches| && Extends(value, candidates, matches[..i], extended)
    requires forall k | 0 <= k < |extended| :: !Overlaps(extended[k], matches[i])
    requires TakenFrom(value, c) && Represents(c, matches[i])
    ensures Extends(value, candidates, matches[..i + 1], extended + [c])
  {
    assert matches[..i + 1] == matches[..i] + [matches[i]];
    TakenIsAdded(extended, c, matches[i]);
    assert forall k | 0 <= k < |candidates| :: extended[k] == candidates[k];
  }

  lemma TakenIsAdded(candidates: seq<Candidate>, c: Candidate, m: Range)
    requires Represents(c, m)
    ensures forall x: Range :: IsTaken(candidates + [c], x) <==> IsTaken(candidates, x) || x == m
  {
    forall x: Range
      ensures IsTaken(candidates + [c], x) <==> IsTaken(candidates, x) || x == m
    {
      assert forall y :: y in candidates + [c] <==> y in candidates || y == c;
      assert c in candidates + [c];
    }
  }

  predicate StartLeq(a: Candidate, b: Candidate) { a.start <= b.start }

  /** Candidates come out in order and disjoint: where ranges are repaired the
      repairable ones, then the markers that meet none of them, then the unclosed
      markers that meet none of either; otherwise just the markers. */
  method ReadCitationCandidates(
    value: string, rangeMatches: seq<Range>, repairable: Range -> bool,
    markerMatches: seq<Range>, unclosedMatches: seq<Range>, maximum: Option<nat>)
    returns (candidates: seq<Candidate>)
    requires MatchesOf(value, rangeMatches) && MatchesOf(value, markerMatches)
    requires MatchesOf(value, unclosedMatches)
    ensures ReadOff(value, candidates)
    ensures ReadBy(candidates, rangeMatches, repairable, markerMatches, unclosedMatches, maximum)
  {
    var found: seq<Candidate> := [];
    if maximum.Some? {
      var repaired := FilterRanges(value, rangeMatches, repairable);
      found := AppendMatches(value, [], repaired);
    }
    ghost var first := found;
    found := AppendMatches(value, found, markerMatches);
    ghost var second := found;
    if maximum.Some? {
      found := AppendMatches(value, found, unclosedMatches);
    }
    TakenInTurn(rangeMatches, repairable, markerMatches, unclosedMatches, maximum, first, second, found);
    candidates := Sort(StartLeq, found);
    SortedIsReadOff(value, found);
  }

  /** A repairable range, where ranges are repaired at all. */
  ghost predicate IsRepaired(rangeMatches: seq<Range>, repairable: Range -> bool, maximum: Option<nat>, m: Range) {
    maximum.Some? && m in rangeMatches && repairable(m)
  }

  /** A marker that no repaired range meets. */
  ghost predicate IsMarked(
    rangeMatches: seq<Range>, repairable: Range -> bool, markerMatches: seq<Range>, maximum: Option<nat>, m: Range)
  {
    && m in markerMatches
    && forall r | r in rangeMatches && IsRepaired(rangeMatches, repairable, maximum, r) :: !Meet(r, m)
  }

  /** An unclosed marker that meets neither. */
  ghost predicate IsClosed(
    rangeMatches: seq<Range>, repairable: Range -> bool, markerMatches: seq<Range>, unclosedMatches: seq<Range>,
    maximum: Option<nat>, m: Range)
  {
    && maximum.Some? && m in unclosedMatches
    && (forall r | r in rangeMatches && IsRepaired(rangeMatches, repairable, maximum, r) :: !Meet(r, m))
    && (forall r | r in markerMatches && IsMarked(rangeMatches, repairable, markerMatches, maximum, r) :: !Meet(r, m))
  }

  lemma MeetsNoTaken(candidates: seq<Candidate>, m: Range)
    ensures MeetsNone(candidates, m) <==> forall r: Range | IsTaken(candidates, r) :: !Meet(r, m)
  {
    forall c | c in candidates
      ensures IsTaken(candidates, Range(c.start, c.end)) && (Overlaps(c, m) <==> Meet(Range(c.start, c.end), m))
    {
      assert Represents(c, Range(c.start, c.end));
    }
  }

  lemma TakenInTurn(
    rangeMatches: seq<Range>, repairable: Range -> bool, markerMatches: seq<Range>, unclosedMatches: seq<Range>,
    maximum: Option<nat>, first: seq<Candidate>, second: seq<Candidate>, third: seq<Candidate>)
    requires forall m: Range :: IsTaken(first, m) <==> IsRepaired(rangeMatches, repairable, maximum, m)
    requires forall m: Range :: IsTaken(second, m) <==>
               IsTaken(first, m) || (m in markerMatches && MeetsNone(first, m))
    requires maximum.None? ==> third == second
    requires maximum.Some? ==> forall m: Range :: IsTaken(third, m) <==>
               IsTaken(second, m) || (m in unclosedMatches && MeetsNone(second, m))
    ensures ReadBy(third, rangeMatches, repairable, markerMatches, unclosedMatches, maximum)
  {
    forall m: Range
      ensures IsTaken(third, m) <==>
              || IsRepaired(rangeMatches, repairable, maximum, m)
              || IsMarked(rangeMatches, repairable, markerMatches, maximum, m)
              || IsClosed(rangeMatches, repairable, markerMatches, unclosedMatches, maximum, m)
    {
      MeetsNoTaken(first, m);
      MeetsNoTaken(second, m);
      forall r: Range | r in markerMatches
        ensures IsTaken(second, r) <==>
                || IsRepaired(rangeMatches, repairable, maximum, r)
                || IsMarked(rangeMatches, repairable, markerMatches, maximum, r)
      {
        MeetsNoTaken(first, r);
      }
      forall r: Range | IsTaken(second, r)
        ensures IsRepaired(rangeMatches, repairable, maximum, r)
                || IsMarked(rangeMatches, repairable, markerMatches, maximum, r)
      {
        MeetsNoTaken(first, r);
      }
    }
  }

  /** The candidates are what is found at exactly these ranges. */
  ghost predicate ReadBy(
    candidates: seq<Candidate>, rangeMatches: seq<Range>, repairable: Range -> bool, markerMatches: seq<Range>,
    unclosedMatches: seq<Range>, maximum: Option<nat>)
  {
    forall m: Range :: IsTaken(candidates, m) <==>
      || IsRepaired(rangeMatches, repairable, maximum, m)
      || IsMarked(rangeMatches, repairable, markerMatches, maximum, m)
      || IsClosed(rangeMatches, repairable, markerMatches, unclosedMatches, maximum, m)
  }

  lemma CandidateIsMatch(
    candidates: seq<Candidate>, rangeMatches: seq<Range>, repairable: Range -> bool, markerMatches: seq<Range>,
    unclosedMatches: seq<Range>, maximum: Option<nat>, c: Candidate)
    requires ReadBy(candidates, rangeMatches, repairable, markerMatches, unclosedMatches, maximum) && c in candidates
    ensures var m := Range(c.start, c.end);
      || m in markerMatches
      || (maximum.Some? && (m in unclosedMatches || (m in rangeMatches && repairable(m))))
  {
    assert Represents(c, Range(c.start, c.end));
    assert IsTaken(candidates, Range(c.start, c.end));
  }

  lemma MatchIsCovered(
    candidates: seq<Candidate>, rangeMatches: seq<Range>, repairable: Range -> bool, markerMatches: seq<Range>,
    unclosedMatches: seq<Range>, maximum: Option<nat>, m: Range)
    requires ReadBy(candidates, rangeMatches, repairable, markerMatches, unclosedMatches, maximum)
    requires m in markerMatches || (maximum.Some? && m in unclosedMatches)
    ensures Covers(candidates, m)
  {
    if IsTaken(candidates, m) {
      var c :| c in candidates && Represents(c, m);
    } else {
      var r: Range :| IsTaken(candidates, r) && Meet(r, m);
      var c :| c in candidates && Represents(c, r);
    }
  }

  lemma SortedIsReadOff(value: string, found: seq<Candidate>)
    requires GoodCandidates(value, found)
    ensures ReadOff(value, Sort(StartLeq, found))
    ensures forall m: Range :: IsTaken(Sort(StartLeq, found), m) <==> IsTaken(found, m)
  {
    var candidates := Sort(StartLeq, found);
    SortKeepsElements(StartLeq, found);
    SortSorts(StartLeq, found);
    SortKeepsPairwise(StartLeq, Apart, found);
    assert forall i | 0 <= i < |candidates| :: candidates[i] in candidates;
    forall i, j | 0 <= i < j < |candidates|
      ensures candidates[i].end <= candidates[j].start
    {
      assert Apart(candidates[i], candidates[j]) && StartLeq(candidates[i], candidates[j]);
    }
  }

  method FilterRanges(value: string, matches: seq<Range>, keep: Range -> bool) returns (kept: seq<Range>)
    requires MatchesOf(value, matches)
    ensures MatchesOf(value, kept)
    ensures forall m :: m in kept <==> m in matches && keep(m)
  {
    kept := [];
    for i := 0 to |matches|
      invariant MatchesOf(value, kept)
      invariant forall m :: m in kept <==> m in matches[..i] && keep(m)
      invariant i < |matches| ==> forall m | m in kept :: m.end <= matches[i].start
    {
      assert matches[..i + 1] == matches[..i] + [matches[i]];
      if keep(matches[i]) {
        kept := kept + [matches[i]];
      }
    }
    assert matches[..|matches|] == matches;
  }

  // -------------------------------------------------------------------- spans

  /** A piece of parsed text: plain text, or a citation with the marker it was
      written as. */
  datatype Span = Text(text: string) | Citation(marker: string, numbers: seq<nat>)

  function SpanSource(span: Span): string {
    if span.Text? then span.text else span.marker
  }

  /** A citation and where it stands in the text. */
  datatype CitationAt = CitationAt(at: nat, citation: Span)

  /** A text and the citations in it, in order. */
  datatype Written = Written(text: string, citations: seq<CitationAt>)

  /** The text that spans were cut from, with its citations. */
  function Made(spans: seq<Span>): Written {
    if spans == [] then Written("", []) else Plus(Made(spans[..|spans| - 1]), spans[|spans| - 1])
  }

  function Plus(w: Written, span: Span): Written {
    Written(w.text + SpanSource(span), w.citations + (if span.Citation? then [CitationAt(|w.text|, span)] else []))
  }

  method AppendTextSpan(spans: seq<Span>, text: string) returns (extended: seq<Span>)
    ensures Made(extended) == Written(Made(spans).text + text, Made(spans).citations)
  {
    if text == "" {
      return spans;
    }
    var n := |spans|;
    if n > 0 && spans[n - 1].Text? {
      extended := spans[n - 1 := Text(spans[n - 1].text + text)];
      assert extended[..n - 1] == spans[..n - 1];
      Glue(Made(spans[..n - 1]).text, spans[n - 1].text, text);
    } else {
      extended := AppendSpan(spans, Text(text));
    }
  }

  method AppendSpan(spans: seq<Span>, span: Span) returns (extended: seq<Span>)
    ensures Made(extended) == Plus(Made(spans), span)
  {
    extended := spans + [span];
    assert extended[..|spans|] == spans;
  }

  predicate OccursAt(value: string, marker: string, at: nat) {
    at + |marker| <= |value| && value[at..at + |marker|] == marker
  }

  /** The first place from the given one on where the marker occurs. */
  function FirstOccurrence(value: string, marker: string, from: nat): (index: Option<nat>)
    ensures index.Some? ==> from <= index.value && OccursAt(value, marker, index.value)
    decreases |value| - from
  {
    if from + |marker| > |value| then None
    else if OccursAt(value, marker, from) then Some(from)
    else FirstOccurrence(value, marker, from + 1)
  }

  lemma {:induction false} NoneBeforeFirst(value: string, marker: string, from: nat, at: nat)
    requires from <= at && OccursAt(value, marker, at)
    ensures FirstOccurrence(value, marker, from).Some? && FirstOccurrence(value, marker, from).value <= at
    decreases at - from
  {
    if !OccursAt(value, marker, from) {
      NoneBeforeFirst(value, marker, from + 1, at);
    }
  }

  method IndexOf(value: string, marker: string, from: nat) returns (index: Option<nat>)
    ensures index == FirstOccurrence(value, marker, from)
  {
    var k := from;
    while k + |marker| <= |value|
      invariant from <= k
      invariant FirstOccurrence(value, marker, k) == FirstOccurrence(value, marker, from)
    {
      if value[k..k + |marker|] == marker {
        return Some(k);
      }
      k := k + 1;
    }
    index := None;
  }

  /** The citation that a candidate found at a place turns into, unless it is
      escaped or the bracketed year of a legal citation. */
  function CitedOnce(c: Candidate, at: nat, legal: Candidate -> bool, parse: string -> Option<seq<nat>>): seq<CitationAt> {
    if c.escaped || legal(c) || parse(c.marker).None? then []
    else [CitationAt(at, Citation(c.marker, parse(c.marker).value))]
  }

  /** Where the last of the candidates at these places ends, and the lookup of
      the next begins. */
  function EndOfLast(candidates: seq<Candidate>, places: seq<nat>): nat
    requires |places| <= |candidates|
  {
    if places == [] then 0 else places[|places| - 1] + |candidates[|places| - 1].marker|
  }

  /** The first candidates are found at these places, each looked up from where
      the one before it ended. */
  predicate FoundAt(value: string, candidates: seq<Candidate>, places: seq<nat>) {
    |places| <= |candidates|
    && (places == [] ||
        var n := |places| - 1;
        && FoundAt(value, candidates, places[..n])
        && FirstOccurrence(value, candidates[n].marker, EndOfLast(candidates, places[..n])) == Some(places[n]))
  }

  /** The citations of the first candidates at these places, in a text that
      begins at the given offset. */
  function Cited(
    candidates: seq<Candidate>, places: seq<nat>, offset: nat, legal: Candidate -> bool,
    parse: string -> Option<seq<nat>>): seq<CitationAt>
    requires |places| <= |candidates|
  {
    if places == [] then []
    else
      var n := |places| - 1;
      Cited(candidates, places[..n], offset, legal, parse)
      + CitedOnce(candidates[n], offset + places[n], legal, parse)
  }

  predicate NumbersAccepted(
    c: Candidate, legal: Candidate -> bool, parse: string -> Option<seq<nat>>, maximum: Option<nat>)
  {
    c.escaped || legal(c) || ParsesAccepted(c.marker, parse, maximum)
  }

  predicate ParsesAccepted(marker: string, parse: string -> Option<seq<nat>>, maximum: Option<nat>) {
    parse(marker).Some? && forall n | n in parse(marker).value :: Accepted(n, maximum)
  }

  /** All candidates are found, each looked up from where the one before it ended. */
  ghost predicate AllFound(value: string, candidates: seq<Candidate>) {
    exists places :: |places| == |candidates| && FoundAt(value, candidates, places)
  }

  lemma {:induction false} FoundUpTo(value: string, candidates: seq<Candidate>, places: seq<nat>, k: nat)
    requires FoundAt(value, candidates, places) && k <= |places|
    ensures FoundAt(value, candidates, places[..k])
    decreases |places|
  {
    if k == |places| {
      assert places[..k] == places;
    } else {
      FoundUpTo(value, candidates, places[..|places| - 1], k);
      assert places[..|places| - 1][..k] == places[..k];
    }
  }

  /** There is only one place for each. */
  lemma {:induction false} FoundOnce(value: string, candidates: seq<Candidate>, a: seq<nat>, b: seq<nat>)
    requires FoundAt(value, candidates, a) && FoundAt(value, candidates, b) && |a| == |b|
    ensures a == b
    decreases |a|
  {
    if a != [] {
      var n := |a| - 1;
      FoundOnce(value, candidates, a[..n], b[..n]);
      assert a == a[..n] + [a[n]] && b == b[..n] + [b[n]];
    }
  }

  lemma NextIsFound(value: string, candidates: seq<Candidate>, places: seq<nat>)
    requires |places| < |candidates| && FoundAt(value, candidates, places) && AllFound(value, candidates)
    ensures FirstOccurrence(value, candidates[|places|].marker, EndOfLast(candidates, places)).Some?
  {
    var all :| |all| == |candidates| && FoundAt(value, candidates, all);
    var n := |places|;
    FoundUpTo(value, candidates, all, n + 1);
    FoundUpTo(value, candidates, all, n);
    FoundOnce(value, candidates, all[..n], places);
    assert all[..n + 1][..n] == places;
  }

  lemma OneMoreAccepted(
    candidates: seq<Candidate>, i: nat, legal: Candidate -> bool, parse: string -> Option<seq<nat>>, maximum: Option<nat>)
    requires i < |candidates|
    ensures AllAccepted(candidates[..i + 1], legal, parse, maximum) <==>
            AllAccepted(candidates[..i], legal, parse, maximum) && NumbersAccepted(candidates[i], legal, parse, maximum)
  {
    assert candidates[..i + 1] == candidates[..i] + [candidates[i]];
  }

  predicate AllAccepted(
    candidates: seq<Candidate>, legal: Candidate -> bool, parse: string -> Option<seq<nat>>, maximum: Option<nat>)
  {
    forall c | c in candidates :: NumbersAccepted(c, legal, parse, maximum)
  }

  /** Candidates as they are read off a text: there, in order, apart. */
  ghost predicate ReadOff(value: string, candidates: seq<Candidate>) {
    && (forall i | 0 <= i < |candidates| :: TakenFrom(value, candidates[i]))
    && (forall i, j | 0 <= i < j < |candidates| :: candidates[i].end <= candidates[j].start)
  }

  lemma TakenOccurs(value: string, c: Candidate)
    requires TakenFrom(value, c)
    ensures OccursAt(value, c.marker, c.start) && c.start + |c.marker| == c.end
  {
  }

  /** Where the parsed text is the source text, candidates are always found, each
      in front of or at its own place. */
  lemma {:induction false} CandidatesAreFound(value: string, candidates: seq<Candidate>, n: nat)
    returns (places: seq<nat>)
    requires ReadOff(value, candidates) && n <= |candidates|
    ensures |places| == n && FoundAt(value, candidates, places)
    ensures n > 0 ==> EndOfLast(candidates, places) <= candidates[n - 1].end
    ensures n == |candidates| ==> AllFound(value, candidates)
  {
    if n == 0 {
      places := [];
    } else {
      var before := CandidatesAreFound(value, candidates, n - 1);
      var c := candidates[n - 1];
      TakenOccurs(value, c);
      NoneBeforeFirst(value, c.marker, EndOfLast(candidates, before), c.start);
      var at := FirstOccurrence(value, c.marker, EndOfLast(candidates, before)).value;
      FoundStep(value, candidates, before, at);
      places := before + [at];
    }
  }

  /** Cuts the value of a text node into spans, exactly if every candidate is
      found and its numbers are accepted.  Nothing of the value is lost or
      repeated, and every candidate that is a citation becomes one, in order,
      at the place where the lookup finds it. */
  method AppendCitationAwareText(
    spans: seq<Span>, value: string, candidates: seq<Candidate>, legal: Candidate -> bool,
    parse: string -> Option<seq<nat>>, maximum: Option<nat>)
    returns (r: Result<seq<Span>, MarkupError>, ghost places: seq<nat>)
    ensures r.Ok? <==>
              AllFound(value, candidates) && AllAccepted(candidates, legal, parse, maximum)
    ensures r.Ok? ==>
              && |places| == |candidates| && FoundAt(value, candidates, places)
              && Made(r.value).text == Made(spans).text + value
              && Made(r.value).citations
                 == Made(spans).citations + Cited(candidates, places, |Made(spans).text|, legal, parse)
  {
    var cut;
    cut, places := CutCandidates(spans, value, candidates, legal, parse, maximum);
    if cut.Err? {
      return Err(cut.error), places;
    }
    var cursor := cut.value.1;
    var extended := AppendTextSpan(cut.value.0, value[cursor..]);
    RebuildStep(Made(spans).text, value, cursor, |value|);
    assert value[..|value|] == value;
    r := Ok(extended);
  }

  /** Everything up to the end of the last candidate. */
  method CutCandidates(
    spans: seq<Span>, value: string, candidates: seq<Candidate>, legal: Candidate -> bool,
    parse: string -> Option<seq<nat>>, maximum: Option<nat>)
    returns (r: Result<(seq<Span>, nat), MarkupError>, ghost places: seq<nat>)
    ensures r.Ok? <==> AllFound(value, candidates) && AllAccepted(candidates, legal, parse, maximum)
    ensures r.Ok? ==> |places| == |candidates|
                      && CutSoFar(Made(spans), Made(r.value.0), value, r.value.1, candidates, places, legal, parse)
  {
    var extended := spans;
    var cursor: nat := 0;
    places := [];
    for i := 0 to |candidates|
      invariant |places| == i && CutSoFar(Made(spans), Made(extended), value, cursor, candidates, places, legal, parse)
      invariant AllAccepted(candidates[..i], legal, parse, maximum)
    {
      OneMoreAccepted(candidates, i, legal, parse, maximum);
      var cut, at := CutNext(extended, value, cursor, candidates[i], legal, parse, maximum);
      if cut.Err? {
        StopHere(value, candidates, places, legal, parse, maximum);
        return Err(cut.error), places;
      }
      CutStep(Made(spans), Made(extended), Made(cut.value), value, cursor, candidates, places, at, legal, parse);
      places := places + [at];
      extended, cursor := cut.value, at + |candidates[i].marker|;
    }
    assert candidates[..|candidates|] == candidates;
    r := Ok((extended, cursor));
  }

  lemma StopHere(
    value: string, candidates: seq<Candidate>, places: seq<nat>, legal: Candidate -> bool,
    parse: string -> Option<seq<nat>>, maximum: Option<nat>)
    requires |places| < |candidates| && FoundAt(value, candidates, places)
    requires FirstOccurrence(value, candidates[|places|].marker, EndOfLast(candidates, places)).Some? ==>
               !NumbersAccepted(candidates[|places|], legal, parse, maximum)
    ensures !(AllFound(value, candidates) && AllAccepted(candidates, legal, parse, maximum))
  {
    assert candidates[|places|] in candidates;
    if AllFound(value, candidates) {
      NextIsFound(value, candidates, places);
    }
  }

  /** What was there, the value up to the cursor, and the candidates found at
      these places make what is there now. */
  ghost predicate CutSoFar(
    start: Written, now: Written, value: string, cursor: nat, candidates: seq<Candidate>, places: seq<nat>,
    legal: Candidate -> bool, parse: string -> Option<seq<nat>>)
  {
    && cursor <= |value| && FoundAt(value, candidates, places) && cursor == EndOfLast(candidates, places)
    && now.text == start.text + value[..cursor]
    && now.citations == start.citations + Cited(candidates, places, |start.text|, legal, parse)
  }

  /** What one candidate adds, after the text in front of it. */
  ghost predicate CutMore(
    before: Written, after: Written, text: string, c: Candidate, legal: Candidate -> bool,
    parse: string -> Option<seq<nat>>)
  {
    && after.text == before.text + (text + c.marker)
    && after.citations == before.citations + CitedOnce(c, |before.text| + |text|, legal, parse)
  }

  /** One step of the loop: looks a candidate up and cuts it out; the answer says
      where it was found. */
  method CutNext(
    before: seq<Span>, value: string, cursor: nat, c: Candidate, legal: Candidate -> bool,
    parse: string -> Option<seq<nat>>, maximum: Option<nat>)
    returns (r: Result<seq<Span>, MarkupError>, at: nat)
    requires cursor <= |value|
    ensures r.Ok? <==> FirstOccurrence(value, c.marker, cursor).Some? && NumbersAccepted(c, legal, parse, maximum)
    ensures r.Ok? ==>
              && FirstOccurrence(value, c.marker, cursor) == Some(at)
              && CutMore(Made(before), Made(r.value), value[cursor..at], c, legal, parse)
  {
    var index := IndexOf(value, c.marker, cursor);
    at := if index.None? then 0 else index.value;
    if index.None? {
      return Err(NotMapped), at;
    }
    MarkerFollows(value, cursor, at, c.marker);
    r := CutCandidate(before, value[cursor..at], value[cursor..at + |c.marker|], c, legal, parse, maximum);
  }

  lemma CutStep(
    start: Written, before: Written, after: Written, value: string, cursor: nat, candidates: seq<Candidate>,
    places: seq<nat>, at: nat, legal: Candidate -> bool, parse: string -> Option<seq<nat>>)
    requires |places| < |candidates|
    requires CutSoFar(start, before, value, cursor, candidates, places, legal, parse)
    requires FirstOccurrence(value, candidates[|places|].marker, cursor) == Some(at)
    requires CutMore(before, after, value[cursor..at], candidates[|places|], legal, parse)
    ensures CutSoFar(start, after, value, at + |candidates[|places|].marker|, candidates, places + [at], legal, parse)
  {
    FoundStep(value, candidates, places, at);
    TextStep(start.text, before.text, after.text, value, cursor, at, candidates[|places|].marker);
    CitedStep(candidates, places, at, |start.text|, legal, parse);
    Glue(start.citations, Cited(candidates, places, |start.text|, legal, parse),
         CitedOnce(candidates[|places|], |start.text| + at, legal, parse));
  }

  lemma TextStep(start: string, before: string, after: string, value: string, cursor: nat, at: nat, marker: string)
    requires cursor <= at && OccursAt(value, marker, at)
    requires before == start + value[..cursor] && after == before + (value[cursor..at] + marker)
    ensures after == start + value[..at + |marker|] && |before| + |value[cursor..at]| == |start| + at
  {
    MarkerFollows(value, cursor, at, marker);
    RebuildStep(start, value, cursor, at + |marker|);
  }

  lemma FoundStep(value: string, candidates: seq<Candidate>, places: seq<nat>, at: nat)
    requires |places| < |candidates| && FoundAt(value, candidates, places)
    requires FirstOccurrence(value, candidates[|places|].marker, EndOfLast(candidates, places)) == Some(at)
    ensures FoundAt(value, candidates, places + [at])
    ensures EndOfLast(candidates, places + [at]) == at + |candidates[|places|].marker|
  {
    assert (places + [at])[..|places|] == places;
  }

  lemma CitedStep(
    candidates: seq<Candidate>, places: seq<nat>, at: nat, offset: nat, legal: Candidate -> bool,
    parse: string -> Option<seq<nat>>)
    requires |places| < |candidates|
    ensures Cited(candidates, places + [at], offset, legal, parse)
         == Cited(candidates, places, offset, legal, parse) + CitedOnce(candidates[|places|], offset + at, legal, parse)
  {
    assert (places + [at])[..|places|] == places;
  }

  /** One candidate that was found: text is what stands in front of it, and upTo
      goes on to its end. */
  method CutCandidate(
    spans: seq<Span>, text: string, upTo: string, c: Candidate, legal: Candidate -> bool,
    parse: string -> Option<seq<nat>>, maximum: Option<nat>)
    returns (r: Result<seq<Span>, MarkupError>)
    requires upTo == text + c.marker
    ensures r.Ok? <==> NumbersAccepted(c, legal, parse, maximum)
    ensures r.Ok? ==> CutMore(Made(spans), Made(r.value), text, c, legal, parse)
  {
    if c.escaped || legal(c) {
      var extended := AppendTextSpan(spans, upTo);
      r := Ok(extended);
    } else {
      var extended := AppendTextSpan(spans, text);
      var citation := ReadCitation(c.marker, parse, maximum);
      if citation.Err? {
        return Err(citation.error);
      }
      var cited := AppendSpan(extended, citation.value);
      Glue(Made(spans).text, text, c.marker);
      r := Ok(cited);
    }
  }

  method ReadCitation(marker: string, parse: string -> Option<seq<nat>>, maximum: Option<nat>)
    returns (r: Result<Span, MarkupError>)
    ensures if ParsesAccepted(marker, parse, maximum) then r == Ok(Citation(marker, parse(marker).value)) else r.Err?
  {
    if parse(marker).None? {
      return Err(InvalidMarker);
    }
    var error := ValidateCitationNumbers(parse(marker).value, maximum);
    r := if error.Some? then Err(error.value) else Ok(Citation(marker, parse(marker).value));
  }

  lemma MarkerFollows(value: string, from: nat, at: nat, marker: string)
    requires from <= at && OccursAt(value, marker, at)
    ensures value[from..at + |marker|] == value[from..at] + marker
  {
  }

  lemma RebuildStep(prefix: string, value: string, a: nat, b: nat)
    requires a <= b <= |value|
    ensures prefix + value[..a] + value[a..b] == prefix + value[..b]
  {
  }

  // ----------------------------------------------------------- canonical form

  datatype CitationSource = CitationSource(start: nat, end: nat, numbers: seq<nat>)

  /** Rewrites of the citations, and removals of the link definitions that only
      repaired citations used. */
  method ReadReplacements(
    citations: seq<CitationSource>, repaired: seq<string>, preserved: set<string>,
    definitions: map<string, Edit>)
    returns (replacements: seq<Edit>)
    ensures replacements == CitationEdits(citations) + DefinitionEdits(repaired, preserved, definitions)
    ensures |replacements| >= |citations| && forall i | 0 <= i < |citations| ::
              replacements[i] == Edit(citations[i].start, citations[i].end, Markers(citations[i].numbers))
    ensures forall e :: e in replacements[|citations|..] <==>
              exists id | id in repaired && id !in preserved && id in definitions :: definitions[id] == e
  {
    CitationEditsAre(citations);
    DefinitionEditsAre(repaired, preserved, definitions);
    replacements := [];
    for i := 0 to |citations|
      invariant replacements == CitationEdits(citations[..i])
    {
      assert citations[..i + 1][..i] == citations[..i];
      var c := citations[i];
      replacements := replacements + [Edit(c.start, c.end, Markers(c.numbers))];
    }
    assert citations[..|citations|] == citations;
    for i := 0 to |repaired|
      invariant replacements == CitationEdits(citations) + DefinitionEdits(repaired[..i], preserved, definitions)
    {
      assert repaired[..i + 1][..i] == repaired[..i];
      if repaired[i] !in preserved && repaired[i] in definitions {
        replacements := replacements + [definitions[repaired[i]]];
      }
    }
    assert repaired[..|repaired|] == repaired;
    assert replacements[|citations|..] == DefinitionEdits(repaired, preserved, definitions);
  }

  function CitationEdits(citations: seq<CitationSource>): seq<Edit> {
    if citations == [] then []
    else
      var last := citations[|citations| - 1];
      CitationEdits(citations[..|citations| - 1]) + [Edit(last.start, last.end, Markers(last.numbers))]
  }

  function DefinitionEdits(
    repaired: seq<string>, preserved: set<string>, definitions: map<string, Edit>): seq<Edit>
  {
    if repaired == [] then []
    else
      var last := repaired[|repaired| - 1];
      DefinitionEdits(repaired[..|repaired| - 1], preserved, definitions)
      + (if last in preserved || last !in definitions then [] else [definitions[last]])
  }

  lemma {:induction false} CitationEditsAre(citations: seq<CitationSource>)
    ensures |CitationEdits(citations)| == |citations|
    ensures forall i | 0 <= i < |citations| ::
              CitationEdits(citations)[i] == Edit(citations[i].start, citations[i].end, Markers(citations[i].numbers))
  {
    if citations != [] {
      CitationEditsAre(citations[..|citations| - 1]);
    }
  }

  lemma {:induction false} DefinitionEditsAre(
    repaired: seq<string>, preserved: set<string>, definitions: map<string, Edit>)
    ensures forall e :: e in DefinitionEdits(repaired, preserved, definitions) <==>
              exists id | id in repaired && id !in preserved && id in definitions :: definitions[id] == e
  {
    if repaired != [] {
      var n := |repaired| - 1;
      DefinitionEditsAre(repaired[..n], preserved, definitions);
      assert repaired == repaired[..n] + [repaired[n]];
    }
  }

  predicate StartsAfter(a: Edit, b: Edit) { a.start >= b.start }

  /** The replacements from left to right. */
  function LeftToRight(replacements: seq<Edit>): seq<Edit> {
    Reverse(Sort(StartsAfter, replacements))
  }

  ghost predicate DisjointRanges(n: nat, replacements: seq<Edit>) {
    && (forall e | e in replacements :: e.start < e.end <= n)
    && Pairwise(Disjoint, replacements)
  }

  lemma ReverseKeepsElements<T>(s: seq<T>)
    ensures forall x :: x in Reverse(s) <==> x in s
  {
    forall i | 0 <= i < |s|
      ensures s[i] in Reverse(s)
    {
      assert Reverse(s)[|s| - 1 - i] == s[i];
    }
  }

  lemma LeftToRightIsPlaced(n: nat, replacements: seq<Edit>)
    requires DisjointRanges(n, replacements)
    ensures Placed(n, LeftToRight(replacements), 0)
    ensures forall e :: e in LeftToRight(replacements) <==> e in replacements
  {
    var sorted, ordered := Sort(StartsAfter, replacements), LeftToRight(replacements);
    SortSorts(StartsAfter, replacements);
    SortKeepsElements(StartsAfter, replacements);
    SortKeepsPairwise(StartsAfter, Disjoint, replacements);
    ReverseKeepsElements(sorted);
    ReversedIsOrdered(sorted);
    OrderedIsPlaced(n, ordered, 0);
  }

  lemma ReversedIsOrdered(sorted: seq<Edit>)
    requires SortedBy(StartsAfter, sorted) && Pairwise(Disjoint, sorted)
    ensures var ordered := Reverse(sorted);
      forall i, j | 0 <= i < j < |ordered| :: ordered[i].start <= ordered[j].start && Disjoint(ordered[i], ordered[j])
  {
    var ordered := Reverse(sorted);
    forall i, j | 0 <= i < j < |ordered|
      ensures ordered[i].start <= ordered[j].start && Disjoint(ordered[i], ordered[j])
    {
      assert ordered[i] == sorted[|sorted| - 1 - i] && ordered[j] == sorted[|sorted| - 1 - j];
      assert StartsAfter(ordered[j], ordered[i]) && Disjoint(ordered[j], ordered[i]);
    }
  }

  /** Rewriting from the right gives the simultaneous substitution. */
  method CanonicalizeCitations(markdown: string, replacements: seq<Edit>) returns (canonical: string)
    ensures DisjointRanges(|markdown|, replacements) ==>
              && Placed(|markdown|, LeftToRight(replacements), 0)
              && canonical == Trim(Substitute(markdown, LeftToRight(replacements), 0))
  {
    var edited := ApplyFromRight(markdown, LeftToRight(replacements));
    if DisjointRanges(|markdown|, replacements) {
      LeftToRightIsPlaced(|markdown|, replacements);
    }
    canonical := Trim(edited);
  }
}
