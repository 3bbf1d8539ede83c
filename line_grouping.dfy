/** The station board of the quiz, `groupedStations`
    (src/components/mrt-challenge-game.tsx:65-70, 319-347).

    Every station is filed under the line its id starts with (a CE station
    under CC), each line's stations are sorted by the number that follows
    the line letters, and the lines are shown in the fixed order EW, CG,
    NS, NE, CC, TE, DT, leaving out lines with no station and every line
    not in that order. */
module LineGrouping {
  import opened StationData
  import Text
  import Clock
  import Seqs

  // ---------------------------------------------------------------------
  // Line codes (src/components/mrt-challenge-game.tsx:65-70)

  /** How many capital letters `id` starts with. */
  function LeadingCapitals(id: string): (n: nat)
    ensures n <= |id|
  {
    if id != [] && Text.IsUpper(id[0]) then 1 + LeadingCapitals(id[1..]) else 0
  }

  /** `getLineCode`: the run of capitals an id starts with, or "" when it
      does not start with one. It is the longest prefix of `id` made of
      capital letters. */
  function LineCode(id: string): (code: string)
    ensures |code| <= |id| && code == id[..|code|]
    ensures forall i :: 0 <= i < |code| ==> Text.IsUpper(code[i])
    ensures |code| < |id| ==> !Text.IsUpper(id[|code|])
  {
    LineCodeIsLongestCapitals(id);
    id[..LeadingCapitals(id)]
  }

  lemma {:induction false} LineCodeIsLongestCapitals(id: string)
    ensures forall i :: 0 <= i < LeadingCapitals(id) ==> Text.IsUpper(id[i])
    ensures LeadingCapitals(id) < |id| ==> !Text.IsUpper(id[LeadingCapitals(id)])
  {
    if id != [] && Text.IsUpper(id[0]) {
      LineCodeIsLongestCapitals(id[1..]);
    }
  }

  /** The line a station is filed under: its line code, with CE counted as
      CC. */
  function GroupLine(id: string): (line: string)
    ensures line == "CC" <==> LineCode(id) == "CC" || LineCode(id) == "CE"
    ensures LineCode(id) != "CE" ==> line == LineCode(id)
  {
    var code := LineCode(id);
    if code == "CE" then "CC" else code
  }

  /** `LINE_ORDER`: the lines shown, in the order shown. */
  const LineOrder: seq<string> := ["EW", "CG", "NS", "NE", "CC", "TE", "DT"]

  /** `lineNames`, for the lines that have a name: every line of the order
      shown has one, and only two-capital codes do. */
  function LineName(line: string): (name: Option<string>)
    ensures line in LineOrder ==> name.Some?
    ensures name.Some? ==> |line| == 2 && Text.IsUpper(line[0]) && Text.IsUpper(line[1])
  {
    if line == "EW" then Some("East West Line")
    else if line == "NS" then Some("North South Line")
    else if line == "DT" then Some("Downtown Line")
    else if line == "CC" then Some("Circle Line")
    else if line == "NE" then Some("North East Line")
    else if line == "TE" then Some("Thomson-East Coast Line")
    else if line == "BP" then Some("Bukit Panjang LRT")
    else if line == "SK" then Some("Sengkang LRT")
    else if line == "PG" then Some("Punggol LRT")
    else if line == "CG" then Some("Changi Airport Branch Line")
    else None
  }

  // ---------------------------------------------------------------------
  // The sort key (src/components/mrt-challenge-game.tsx:334-337)

  /** How many whitespace characters `s` starts with. */
  function LeadingSpaces(s: string): (n: nat)
    ensures n <= |s|
  {
    if s != [] && Text.IsSpace(s[0]) then 1 + LeadingSpaces(s[1..]) else 0
  }

  /** How many decimal digits `s` starts with. */
  function LeadingDigits(s: string): (n: nat)
    ensures n <= |s| && Clock.AllDigits(s[..n])
    ensures n < |s| ==> !Text.IsDigit(s[n])
  {
    if s != [] && Text.IsDigit(s[0]) then
      var n := 1 + LeadingDigits(s[1..]);
      assert s[..n] == [s[0]] + s[1..][..n - 1];
      n
    else 0
  }

  /** `parseInt(s, 10)`: leading whitespace skipped, an optional sign, then
      the longest run of decimal digits; None stands for NaN, when there is
      no digit. */
  function ParseInt(s: string): (r: Option<int>)
    ensures s == [] ==> r.None?
    ensures s != [] && Text.IsDigit(s[0]) ==> r.Some? && r.value >= 0
    ensures s != [] && !Text.IsSpace(s[0]) && s[0] != '-' && s[0] != '+' && !Text.IsDigit(s[0]) ==> r.None?
  {
    var t := s[LeadingSpaces(s)..];
    var negative := t != [] && t[0] == '-';
    var rest := if t != [] && (t[0] == '-' || t[0] == '+') then t[1..] else t;
    var d := LeadingDigits(rest);
    if d == 0 then None
    else
      var v: int := Clock.DigitsValue(rest[..d]);
      Some(if negative then -v else v)
  }

  /** The number a station is sorted by: the id with its line code removed,
      read by `parseInt`. A NaN is filed as 0. */
  function NumberKey(id: string): int {
    match ParseInt(id[LeadingCapitals(id)..])
    case None => 0
    case Some(v) => v
  }

  /** The parse reads back what a decimal rendering says. */
  lemma ParseIntReadsDecimal(n: nat, suffix: string)
    requires suffix == [] || !Text.IsDigit(suffix[0])
    ensures ParseInt(Clock.DecimalString(n) + suffix) == Some(n)
  {
    var s := Clock.DecimalString(n) + suffix;
    var r := Clock.DecimalString(n);
    assert LeadingSpaces(s) == 0;
    assert s[0] == r[0];
    DigitsThen(r, suffix);
    assert s[..|r|] == r;
    Clock.DecimalRoundTrip(n);
  }

  lemma {:induction false} DigitsThen(r: string, suffix: string)
    requires Clock.AllDigits(r)
    requires suffix == [] || !Text.IsDigit(suffix[0])
    ensures LeadingDigits(r + suffix) == |r|
  {
    if r != [] {
      assert (r + suffix)[1..] == r[1..] + suffix;
      DigitsThen(r[1..], suffix);
    }
  }

  /** A station code such as "NS" followed by a number, and possibly a
      letter, is filed under "NS" and sorted by that number. */
  lemma StationCodeParts(line: string, n: nat, suffix: string)
    requires forall i :: 0 <= i < |line| ==> Text.IsUpper(line[i])
    requires suffix == [] || !Text.IsDigit(suffix[0])
    ensures LineCode(line + Clock.DecimalString(n) + suffix) == line
    ensures NumberKey(line + Clock.DecimalString(n) + suffix) == n
  {
    var d := Clock.DecimalString(n);
    var digits := d + suffix;
    assert digits[0] == d[0];
    CapitalsThen(line, digits);
    ParseIntReadsDecimal(n, suffix);
    CodeThenNumber(line, digits, n);
    assert line + d + suffix == line + digits;
  }

  /** An id whose capitals end where `line` does splits into `line` and the
      number the rest parses to. */
  lemma CodeThenNumber(line: string, rest: string, n: int)
    requires LeadingCapitals(line + rest) == |line|
    requires ParseInt(rest) == Some(n)
    ensures LineCode(line + rest) == line
    ensures NumberKey(line + rest) == n
  {
    var id := line + rest;
    assert id[..|line|] == line;
    assert id[|line|..] == rest;
  }

  lemma {:induction false} CapitalsThen(line: string, rest: string)
    requires forall i :: 0 <= i < |line| ==> Text.IsUpper(line[i])
    requires rest == [] || !Text.IsUpper(rest[0])
    ensures LeadingCapitals(line + rest) == |line|
  {
    if line != [] {
      assert (line + rest)[1..] == line[1..] + rest;
      CapitalsThen(line[1..], rest);
    }
  }

  // ---------------------------------------------------------------------
  // Sorting one line (src/components/mrt-challenge-game.tsx:334-339)

  /** The comparator of the source, as the key it subtracts. */
  function Key(s: Station): int { NumberKey(s.id) }

  /** Inserting `x` into a sorted list after every station whose key is not
      larger, scanning from the end. */
  function Insert(s: seq<Station>, x: Station, key: Station -> int): seq<Station> {
    if s == [] || key(s[|s| - 1]) <= key(x) then s + [x]
    else Insert(s[..|s| - 1], x, key) + [s[|s| - 1]]
  }

  /** The sorted list: the stations inserted one at a time, in list order.
      This is a stable sort by key, as `Array.prototype.sort` is. */
  function SortByKey(s: seq<Station>, key: Station -> int): seq<Station> {
    if s == [] then [] else Insert(SortByKey(s[..|s| - 1], key), s[|s| - 1], key)
  }

  predicate SortedByKey(s: seq<Station>, key: Station -> int) {
    forall i, j :: 0 <= i < j < |s| ==> key(s[i]) <= key(s[j])
  }

  /** The stations of `s` with key `k`, in order. */
  function WithKey(s: seq<Station>, key: Station -> int, k: int): seq<Station> {
    if s == [] then []
    else WithKey(s[..|s| - 1], key, k) + (if key(s[|s| - 1]) == k then [s[|s| - 1]] else [])
  }

  /** `Array.prototype.sort` with a comparator that subtracts keys: an
      insertion sort, in place. */
  method SortBy(a: array<Station>, key: Station -> int)
    modifies a
    ensures a[..] == SortByKey(old(a[..]), key)
  {
    ghost var input := a[..];
    for i := 0 to a.Length
      invariant a[..i] == SortByKey(input[..i], key)
      invariant a[i..] == input[i..]
    {
      ghost var before := a[..];
      InsertAt(a, i, key);
      SortStep(input, before, a[..], i, key);
    }
    assert input[..a.Length] == input;
  }

  /** One turn of the outer loop, on the array's contents before and after
      inserting element `i`. */
  lemma SortStep(input: seq<Station>, before: seq<Station>, after: seq<Station>, i: nat, key: Station -> int)
    requires i < |input| == |before| == |after|
    requires before[..i] == SortByKey(input[..i], key) && before[i..] == input[i..]
    requires after[..i + 1] == Insert(before[..i], before[i], key) && after[i + 1..] == before[i + 1..]
    ensures after[..i + 1] == SortByKey(input[..i + 1], key) && after[i + 1..] == input[i + 1..]
  {
    assert input[..i + 1][..i] == input[..i];
    assert before[i] == input[i];
    assert before[i + 1..] == input[i + 1..];
  }

  /** Moves `a[i]` left past every larger key in front of it. */
  method InsertAt(a: array<Station>, i: nat, key: Station -> int)
    requires i < a.Length
    modifies a
    ensures a[..i + 1] == Insert(old(a[..i]), old(a[i]), key)
    ensures a[i + 1..] == old(a[i + 1..])
  {
    ghost var whole := a[..];
    ghost var prefix := a[..i];
    var x := a[i];
    var j := i;
    while j > 0 && key(a[j - 1]) > key(x)
      invariant 0 <= j <= i
      invariant forall k :: 0 <= k < j ==> a[k] == prefix[k]
      invariant forall k :: j < k <= i ==> a[k] == prefix[k - 1]
      invariant forall k :: i < k < a.Length ==> a[k] == whole[k]
      invariant forall k :: j <= k < i ==> key(prefix[k]) > key(x)
    {
      a[j] := a[j - 1];
      j := j - 1;
    }
    a[j] := x;
    Placed(prefix, a[..i + 1], j, x);
    assert a[i + 1..] == whole[i + 1..];
    InsertAtGap(prefix, j, x, key);
  }

  /** The array after the shift loop: the prefix up to the gap, `x`, then
      the rest of the prefix moved one place right. */
  lemma Placed(prefix: seq<Station>, placed: seq<Station>, j: nat, x: Station)
    requires j <= |prefix| && |placed| == |prefix| + 1
    requires forall k :: 0 <= k < j ==> placed[k] == prefix[k]
    requires placed[j] == x
    requires forall k :: j < k < |placed| ==> placed[k] == prefix[k - 1]
    ensures placed == prefix[..j] + [x] + prefix[j..]
  {
    forall k | 0 <= k < |placed|
      ensures placed[k] == (prefix[..j] + [x] + prefix[j..])[k]
    {
      if k > j {
        assert (prefix[..j] + [x] + prefix[j..])[k] == prefix[j..][k - j - 1];
      }
    }
  }

  /** `x` goes in the gap after the last key not larger than its own. */
  lemma {:induction false} InsertAtGap(s: seq<Station>, j: nat, x: Station, key: Station -> int)
    requires j <= |s|
    requires j == 0 || key(s[j - 1]) <= key(x)
    requires forall k :: j <= k < |s| ==> key(s[k]) > key(x)
    ensures Insert(s, x, key) == s[..j] + [x] + s[j..]
  {
    if j < |s| {
      var n := |s| - 1;
      InsertAtGap(s[..n], j, x, key);
      assert s[..n][..j] == s[..j];
      assert s[j..] == s[..n][j..] + [s[n]];
    }
  }

  // ---------------------------------------------------------------------
  // What the sort promises

  lemma {:induction false} InsertSorted(s: seq<Station>, x: Station, key: Station -> int)
    requires SortedByKey(s, key)
    ensures SortedByKey(Insert(s, x, key), key)
    ensures |Insert(s, x, key)| == |s| + 1
    ensures forall i :: 0 <= i < |Insert(s, x, key)| ==>
      key(Insert(s, x, key)[i]) <= key(x) || Insert(s, x, key)[i] in s
  {
    if s != [] && key(s[|s| - 1]) > key(x) {
      var n := |s| - 1;
      InsertSorted(s[..n], x, key);
    }
  }

  /** The sorted list is in ascending key order. */
  lemma {:induction false} SortByKeySorted(s: seq<Station>, key: Station -> int)
    ensures SortedByKey(SortByKey(s, key), key)
  {
    if s != [] {
      SortByKeySorted(s[..|s| - 1], key);
      InsertSorted(SortByKey(s[..|s| - 1], key), s[|s| - 1], key);
    }
  }

  lemma {:induction false} InsertPermutes(s: seq<Station>, x: Station, key: Station -> int)
    ensures multiset(Insert(s, x, key)) == multiset(s) + multiset{x}
  {
    if s != [] && key(s[|s| - 1]) > key(x) {
      var n := |s| - 1;
      InsertPermutes(s[..n], x, key);
      assert s == s[..n] + [s[n]];
    }
  }

  /** The sorted list holds exactly the stations it was given. */
  lemma {:induction false} SortByKeyPermutes(s: seq<Station>, key: Station -> int)
    ensures multiset(SortByKey(s, key)) == multiset(s)
  {
    if s != [] {
      var n := |s| - 1;
      SortByKeyPermutes(s[..n], key);
      InsertPermutes(SortByKey(s[..n], key), s[n], key);
      assert s == s[..n] + [s[n]];
    }
  }

  lemma {:induction false} WithKeyAppend(a: seq<Station>, b: seq<Station>, key: Station -> int, k: int)
    ensures WithKey(a + b, key, k) == WithKey(a, key, k) + WithKey(b, key, k)
  {
    if b != [] {
      var n := |b| - 1;
      WithKeyAppend(a, b[..n], key, k);
      assert (a + b)[..|a + b| - 1] == a + b[..n];
    } else {
      assert a + b == a;
    }
  }

  lemma {:induction false} InsertStable(s: seq<Station>, x: Station, key: Station -> int, k: int)
    requires SortedByKey(s, key)
    ensures WithKey(Insert(s, x, key), key, k) == WithKey(s, key, k) + (if key(x) == k then [x] else [])
  {
    if s == [] || key(s[|s| - 1]) <= key(x) {
      WithKeyAppend(s, [x], key, k);
    } else {
      var n := |s| - 1;
      InsertStable(s[..n], x, key, k);
      WithKeyAppend(Insert(s[..n], x, key), [s[n]], key, k);
      WithKeyAppend(s[..n], [s[n]], key, k);
      assert s[..n] + [s[n]] == s;
    }
  }

  /** Stability: among stations with equal keys the sorted list keeps the
      input order. */
  lemma {:induction false} SortByKeyStable(s: seq<Station>, key: Station -> int, k: int)
    ensures WithKey(SortByKey(s, key), key, k) == WithKey(s, key, k)
  {
    if s != [] {
      var n := |s| - 1;
      SortByKeyStable(s[..n], key, k);
      SortByKeySorted(s[..n], key);
      InsertStable(SortByKey(s[..n], key), s[n], key, k);
    }
  }

  // ---------------------------------------------------------------------
  // Filing stations under their lines (src/components/mrt-challenge-game.tsx:319-330)

  /** The stations of `ss` filed under `line`, in list order. */
  function OnLine(ss: seq<Station>, line: string): seq<Station> {
    if ss == [] then []
    else
      var s := ss[|ss| - 1];
      OnLine(ss[..|ss| - 1], line) + (if GroupLine(s.id) == line then [s] else [])
  }

  /** The `groups` record after the filing loop: each station pushed onto
      the list of its line, the list created on the line's first station. */
  function LineGroups(ss: seq<Station>): map<string, seq<Station>> {
    if ss == [] then map[]
    else
      var g := LineGroups(ss[..|ss| - 1]);
      var s := ss[|ss| - 1];
      var line := GroupLine(s.id);
      g[line := (if line in g then g[line] else []) + [s]]
  }

  method CollectByLine(stations: seq<Station>) returns (groups: map<string, seq<Station>>)
    ensures groups == LineGroups(stations)
  {
    groups := map[];
    for i := 0 to |stations|
      invariant groups == LineGroups(stations[..i])
    {
      ghost var before := groups;
      var s := stations[i];
      var line := LineCode(s.id);
      if line == "CE" {
        line := "CC";
      }
      if line !in groups {
        groups := groups[line := []];
      }
      groups := groups[line := groups[line] + [s]];
      FileStation(stations, i, before, groups);
    }
    assert stations[..|stations|] == stations;
  }

  lemma FileStation(ss: seq<Station>, i: nat, before: map<string, seq<Station>>, after: map<string, seq<Station>>)
    requires i < |ss| && before == LineGroups(ss[..i])
    requires var line := GroupLine(ss[i].id);
      after == before[line := (if line in before then before[line] else []) + [ss[i]]]
    ensures after == LineGroups(ss[..i + 1])
  {
    assert ss[..i + 1][..i] == ss[..i];
  }

  /** A line has a list exactly when some station is filed under it, and
      the list holds that line's stations in input order. */
  lemma {:induction false} LineGroupsAreOnLine(ss: seq<Station>, line: string)
    ensures line in LineGroups(ss) <==> OnLine(ss, line) != []
    ensures line in LineGroups(ss) ==> LineGroups(ss)[line] == OnLine(ss, line)
  {
    if ss != [] {
      LineGroupsAreOnLine(ss[..|ss| - 1], line);
    }
  }

  /** A station is on a line's list exactly when it is one of the stations
      and is filed under that line. */
  lemma {:induction false} OnLineMembers(ss: seq<Station>, line: string, s: Station)
    ensures s in OnLine(ss, line) <==> s in ss && GroupLine(s.id) == line
  {
    if ss != [] {
      var n := |ss| - 1;
      OnLineMembers(ss[..n], line, s);
      assert ss == ss[..n] + [ss[n]];
    }
  }

  // ---------------------------------------------------------------------
  // Sorting every list (src/components/mrt-challenge-game.tsx:333-340)

  /** Every list of `groups` sorted by station number: each line keeps a
      list holding the same stations, ordered by number, with stations of
      equal number in their original order. */
  function SortedGroups(groups: map<string, seq<Station>>): (r: map<string, seq<Station>>)
    ensures r.Keys == groups.Keys
    ensures forall line :: line in r ==> SortedByKey(r[line], Key) && multiset(r[line]) == multiset(groups[line])
    ensures forall line, k :: line in r ==> WithKey(r[line], Key, k) == WithKey(groups[line], Key, k)
  {
    SortedEach(groups);
    map line | line in groups :: SortByKey(groups[line], Key)
  }

  lemma SortedEach(groups: map<string, seq<Station>>)
    ensures forall line :: line in groups ==>
      SortedByKey(SortByKey(groups[line], Key), Key) && multiset(SortByKey(groups[line], Key)) == multiset(groups[line])
    ensures forall line, k :: line in groups ==> WithKey(SortByKey(groups[line], Key), Key, k) == WithKey(groups[line], Key, k)
  {
    forall line | line in groups
      ensures SortedByKey(SortByKey(groups[line], Key), Key) && multiset(SortByKey(groups[line], Key)) == multiset(groups[line])
    {
      SortByKeySorted(groups[line], Key);
      SortByKeyPermutes(groups[line], Key);
    }
    forall line, k | line in groups
      ensures WithKey(SortByKey(groups[line], Key), Key, k) == WithKey(groups[line], Key, k)
    {
      SortByKeyStable(groups[line], Key, k);
    }
  }

  method SortGroups(groups: map<string, seq<Station>>) returns (sorted: map<string, seq<Station>>)
    ensures sorted == SortedGroups(groups)
  {
    sorted := groups;
    var todo := groups.Keys;
    while todo != {}
      invariant todo <= groups.Keys && sorted.Keys == groups.Keys
      invariant forall line :: line in groups && line !in todo ==> sorted[line] == SortByKey(groups[line], Key)
      decreases |todo|
    {
      var line :| line in todo;
      var list := groups[line];
      var a := new Station[|list|](k requires 0 <= k < |list| => list[k]);
      assert a[..] == list;
      SortBy(a, Key);
      sorted := sorted[line := a[..]];
      todo := todo - {line};
    }
    SortedEveryLine(groups, sorted);
  }

  lemma SortedEveryLine(groups: map<string, seq<Station>>, sorted: map<string, seq<Station>>)
    requires sorted.Keys == groups.Keys
    requires forall line :: line in groups ==> sorted[line] == SortByKey(groups[line], Key)
    ensures sorted == SortedGroups(groups)
  {
  }

  // ---------------------------------------------------------------------
  // The board (src/components/mrt-challenge-game.tsx:342-346)

  /** One section of the board: a line, its display name and its stations. */
  datatype Group = Group(line: string, name: Option<string>, stations: seq<Station>)

  /** `LINE_ORDER.map`: a section per listed line, empty when the line has
      no list. */
  function Sections(groups: map<string, seq<Station>>, lines: seq<string>): (r: seq<Group>)
    ensures |r| == |lines|
  {
    if lines == [] then []
    else
      var line := lines[|lines| - 1];
      Sections(groups, lines[..|lines| - 1])
        + [Group(line, LineName(line), if line in groups then groups[line] else [])]
  }

  /** `.filter(g => g.stations.length > 0)`. */
  function NonEmpty(gs: seq<Group>): seq<Group> {
    if gs == [] then []
    else
      var g := gs[|gs| - 1];
      NonEmpty(gs[..|gs| - 1]) + (if g.stations != [] then [g] else [])
  }

  /** `groupedStations`. */
  function Grouped(stations: seq<Station>): seq<Group> {
    NonEmpty(Sections(SortedGroups(LineGroups(stations)), LineOrder))
  }

  method GroupStations(stations: seq<Station>) returns (board: seq<Group>)
    ensures board == Grouped(stations)
  {
    var groups := CollectByLine(stations);
    var sorted := SortGroups(groups);
    board := NonEmpty(Sections(sorted, LineOrder));
  }

  // ---------------------------------------------------------------------
  // What the board shows

  /** The board described directly: for each of `lines` in turn that has a
      station, a section holding that line's stations sorted by number. */
  function Board(ss: seq<Station>, lines: seq<string>): seq<Group> {
    if lines == [] then []
    else
      var line := lines[|lines| - 1];
      Board(ss, lines[..|lines| - 1])
        + (if OnLine(ss, line) != [] then [Group(line, LineName(line), SortByKey(OnLine(ss, line), Key))] else [])
  }

  lemma {:induction false} SortByKeyEmpty(s: seq<Station>, key: Station -> int)
    ensures SortByKey(s, key) == [] <==> s == []
  {
    SortByKeyPermutes(s, key);
    if s != [] {
      assert s[0] in multiset(s);
    }
  }

  lemma {:induction false} SectionsMatchBoard(ss: seq<Station>, lines: seq<string>)
    ensures NonEmpty(Sections(SortedGroups(LineGroups(ss)), lines)) == Board(ss, lines)
  {
    if lines != [] {
      var n := |lines| - 1;
      var line := lines[n];
      SectionsMatchBoard(ss, lines[..n]);
      LineGroupsAreOnLine(ss, line);
      SortByKeyEmpty(OnLine(ss, line), Key);
      var sec := Sections(SortedGroups(LineGroups(ss)), lines);
      assert sec[..n] == Sections(SortedGroups(LineGroups(ss)), lines[..n]);
    }
  }

  /** The board is the direct description over the fixed line order. */
  lemma GroupedIsBoard(stations: seq<Station>)
    ensures Grouped(stations) == Board(stations, LineOrder)
  {
    SectionsMatchBoard(stations, LineOrder);
  }

  /** Every section is one of `lines` that has a station, named by
      `lineNames`, holding that line's stations sorted by number. */
  lemma {:induction false} BoardSections(ss: seq<Station>, lines: seq<string>, i: nat)
    requires i < |Board(ss, lines)|
    ensures Board(ss, lines)[i].line in lines
    ensures OnLine(ss, Board(ss, lines)[i].line) != []
    ensures Board(ss, lines)[i].name == LineName(Board(ss, lines)[i].line)
    ensures Board(ss, lines)[i].stations == SortByKey(OnLine(ss, Board(ss, lines)[i].line), Key)
  {
    var n := |lines| - 1;
    if i < |Board(ss, lines[..n])| {
      BoardSections(ss, lines[..n], i);
    }
  }

  /** Every one of `lines` that has a station gets a section. */
  lemma {:induction false} BoardCovers(ss: seq<Station>, lines: seq<string>, line: string) returns (i: nat)
    requires line in lines && OnLine(ss, line) != []
    ensures i < |Board(ss, lines)| && Board(ss, lines)[i].line == line
  {
    var n := |lines| - 1;
    var prev := Board(ss, lines[..n]);
    var b := Board(ss, lines);
    if line in lines[..n] {
      i := BoardCovers(ss, lines[..n], line);
      assert b[i] == prev[i];
    } else {
      var j :| 0 <= j < |lines| && lines[j] == line;
      assert j == n;
      i := |prev|;
    }
  }

  /** The sections follow the order of `lines`: `idx` gives, for each
      section, the position of its line, and the positions increase. */
  lemma {:induction false} BoardOrder(ss: seq<Station>, lines: seq<string>) returns (idx: seq<nat>)
    ensures |idx| == |Board(ss, lines)|
    ensures forall i :: 0 <= i < |idx| ==> idx[i] < |lines| && lines[idx[i]] == Board(ss, lines)[i].line
    ensures forall i, j :: 0 <= i < j < |idx| ==> idx[i] < idx[j]
  {
    if lines == [] {
      idx := [];
    } else {
      var n := |lines| - 1;
      var prev := BoardOrder(ss, lines[..n]);
      var b := Board(ss, lines);
      assert b[..|prev|] == Board(ss, lines[..n]);
      if OnLine(ss, lines[n]) != [] {
        idx := prev + [n];
        assert b[|prev|].line == lines[n];
      } else {
        idx := prev;
      }
    }
  }

  /** What each section of `groupedStations` holds: a line of the fixed
      order that has a station, its name, and exactly that line's stations,
      in ascending number, equal numbers kept in input order. */
  lemma GroupedSection(stations: seq<Station>, i: nat)
    requires i < |Grouped(stations)|
    ensures Grouped(stations)[i].line in LineOrder
    ensures Grouped(stations)[i].name.Some?
    ensures Grouped(stations)[i].name == LineName(Grouped(stations)[i].line)
    ensures Grouped(stations)[i].stations != []
    ensures SortedByKey(Grouped(stations)[i].stations, Key)
    ensures multiset(Grouped(stations)[i].stations) == multiset(OnLine(stations, Grouped(stations)[i].line))
    ensures forall k :: WithKey(Grouped(stations)[i].stations, Key, k) == WithKey(OnLine(stations, Grouped(stations)[i].line), Key, k)
  {
    GroupedIsBoard(stations);
    BoardSections(stations, LineOrder, i);
    var g := Grouped(stations)[i];
    SortedSection(OnLine(stations, g.line), g.stations);
  }

  lemma SortedSection(list: seq<Station>, sorted: seq<Station>)
    requires list != [] && sorted == SortByKey(list, Key)
    ensures sorted != [] && SortedByKey(sorted, Key) && multiset(sorted) == multiset(list)
    ensures forall k :: WithKey(sorted, Key, k) == WithKey(list, Key, k)
  {
    SortByKeyEmpty(list, Key);
    SortByKeySorted(list, Key);
    SortByKeyPermutes(list, Key);
    forall k {
      SortByKeyStable(list, Key, k);
    }
  }

  /** The sections come in the fixed line order, one per line. */
  lemma GroupedOrder(stations: seq<Station>, i: nat, j: nat)
    requires i < j < |Grouped(stations)|
    ensures Grouped(stations)[i].line in LineOrder && Grouped(stations)[j].line in LineOrder
    ensures Seqs.FirstIndex(LineOrder, Grouped(stations)[i].line) < Seqs.FirstIndex(LineOrder, Grouped(stations)[j].line)
  {
    GroupedIsBoard(stations);
    var idx := BoardOrder(stations, LineOrder);
    LineOrderDistinct();
    Seqs.FirstIndexAt(LineOrder, idx[i]);
    Seqs.FirstIndexAt(LineOrder, idx[j]);
  }

  /** No line is listed twice in the fixed order. */
  lemma LineOrderDistinct()
    ensures Seqs.NoDup(LineOrder)
  {
  }

  /** A station is on the board exactly when its line is one of the lines
      shown; stations of the LRT lines and of unknown codes are left off. */
  lemma StationShown(stations: seq<Station>, s: Station)
    requires s in stations
    ensures (exists i :: 0 <= i < |Grouped(stations)| && s in Grouped(stations)[i].stations)
      <==> GroupLine(s.id) in LineOrder
  {
    GroupedIsBoard(stations);
    var line := GroupLine(s.id);
    if i :| 0 <= i < |Grouped(stations)| && s in Grouped(stations)[i].stations {
      GroupedSection(stations, i);
      var l := Grouped(stations)[i].line;
      assert s in multiset(OnLine(stations, l));
      OnLineMembers(stations, l, s);
    }
    if line in LineOrder {
      OnLineMembers(stations, line, s);
      var i := BoardCovers(stations, LineOrder, line);
      GroupedSection(stations, i);
      assert s in multiset(OnLine(stations, line));
    }
  }
}
