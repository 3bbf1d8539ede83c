# MRT Challenge — a verified model of the quiz core

MRT Challenge is a web quiz. The player names every station of Singapore's
MRT network against a fifteen-minute clock. Answers can be given in English,
in Hanyu Pinyin, in Chinese characters or as the station's abbreviation.
This project models the part of the program that decides what the player
sees and what counts as a right answer. Its modules:

- `StationData` (`station.dfy`): the station record and the set of English
  names.
- `Catalog` (`catalog.dfy`): `processStations` and `totalStations` from the
  home page. Raw records are folded into the game's list, each carrying the
  codes of every record with its English name and deduplicated by id. The
  number of distinct English names is the total to win.
- `Text` (`text.dfy`): the two answer normalisers.
- `Clock` (`clock.dfy`): `formatTime`, the `MM:SS` clock face.
- `GuessIndex` (`guess_index.dfy`): the four lookup maps, one per answer
  language, and the lookup of a typed answer.
- `LineGrouping` (`line_grouping.dfy`): `getLineCode`, `LINE_ORDER`,
  `lineNames` and `groupedStations`. These build the board: one section per
  listed line, with the stations sorted by their number.
- `Session` (`session.dfy`): the game's state and its handlers.
  - Each handler is a pure transition on a `Snapshot`: submit, tick, give
    up, reset, language change, start, pause and resume.
  - `Session.GameSession` is a class. Its fields are the component's state,
    and its methods perform the same updates in place.
  - The invariant `Consistent` is proved to hold after every transition.

`Seqs` (`seqs.dfy`) holds sequence helpers: duplicate-freedom, first index
and first-seen deduplication.

The loops of the source are methods proved against the functions that
specify them:
- the code-collecting loop: `Catalog.GroupCodesByName`;
- the map-building loop: `GuessIndex.BuildGuessMaps`;
- the grouping loop: `LineGrouping.CollectByLine`;
- the per-line sort, an in-place insertion sort on an `array`:
  `LineGrouping.SortBy` and `LineGrouping.InsertAt`.

## Model

| member | source | states |
|---|---|---|
| Text.Normalize | src/components/mrt-challenge-game.tsx:22-23 | the normalised answer is no longer than the input and holds only lower-case letters and digits |
| Text.NormalizeAppend | src/components/mrt-challenge-game.tsx:22-23 | normalising distributes over concatenation, so a run of separators deletes to nothing wherever it falls |
| Text.NormalizeFixedPoint | src/components/mrt-challenge-game.tsx:22-23 | a string is left unchanged exactly when it is all lower-case letters and digits |
| Text.NormalizeIdempotent | src/components/mrt-challenge-game.tsx:22-23 | normalising twice is normalising once |
| Text.NormalizeCharwise | src/components/mrt-challenge-game.tsx:22-23 | two strings whose characters normalise alike position by position normalise to the same key |
| Text.NormalizeIgnoresSpace | src/components/mrt-challenge-game.tsx:22-26 | deleting white space first does not change the English/Pinyin key |
| Text.NormalizeDropsNonWord | src/components/mrt-challenge-game.tsx:22-23 | inserting any non-alphanumeric character (space, hyphen, apostrophe, underscore, punctuation) does not change the key |
| Text.JurongEastHyphenated | src/components/mrt-challenge-game.tsx:22-23 | "Jurong East" and "JURONG-EAST" have the same key |
| Text.JurongEastWideSpaced | src/components/mrt-challenge-game.tsx:22-23 | "Jurong East" and "Jurong   East" have the same key |
| Text.NormalizeChinese | src/components/mrt-challenge-game.tsx:25-26 | the Chinese key is no longer than the input and holds no white space |
| Text.NormalizeChineseAppend | src/components/mrt-challenge-game.tsx:25-26 | deleting white space distributes over concatenation |
| Text.NormalizeChineseFixedPoint | src/components/mrt-challenge-game.tsx:25-26 | a string is unchanged exactly when it has no white space |
| Text.NormalizeChineseIdempotent | src/components/mrt-challenge-game.tsx:25-26 | deleting white space twice is deleting it once |
| Text.NormalizeChineseCounts | src/components/mrt-challenge-game.tsx:25-26 | every non-space character occurs in the key exactly as often as in the input; white space occurs zero times |
| Text.NormalizeChineseDropsOneSpace | src/components/mrt-challenge-game.tsx:25-26 | inserting one white-space character anywhere does not change the key |
| Text.Lower | src/components/mrt-challenge-game.tsx:23 | lower-casing maps `A`-`Z` to `a`-`z` and leaves every other character alone |
| Clock.FormatTime | src/components/mrt-challenge-game.tsx:28-32 | the clock face is digits, a colon and two digits; the digits before the colon read back as the whole minutes and the last two as the seconds (below 60); it is exactly five characters long iff the time is under 6000 seconds |
| Clock.Face | src/components/mrt-challenge-game.tsx:29-31 | the face of any minutes and seconds below 60 reads back as those two numbers, with the same layout, and is five characters long iff the minutes are below 100 |
| Clock.PadStart | src/components/mrt-challenge-game.tsx:31 | `padStart` yields the width or the string's own length, whichever is larger, ends with the string and is fill before it |
| Clock.PaddedRoundTrip | src/components/mrt-challenge-game.tsx:31 | a number rendered in decimal and zero-padded to two places reads back as itself |
| Clock.DecimalRoundTrip | src/components/mrt-challenge-game.tsx:31 | `String(n)` reads back as n |
| Clock.DecimalString | src/components/mrt-challenge-game.tsx:31 | `String(n)` is non-empty decimal digits with no leading zero, one digit exactly when n < 10 |
| Clock.DecimalLengthTwo | src/components/mrt-challenge-game.tsx:31 | `String(n)` has at most two digits exactly when n < 100 |
| StationData.NamesMembers | src/app/page.tsx:41 | a name is in the set of English names exactly when some station carries it |
| Catalog.GroupCodesByName | src/app/page.tsx:10-22 | the loop's map is `CodeLists`: one entry per English name, holding the ids of that name |
| Catalog.AddRecord | src/app/page.tsx:14-21 | one loop step keeps the map equal to the code lists of the records seen so far |
| Catalog.IdsNamedMembers | src/app/page.tsx:13-21 | an id is in the list collected for a name iff some station of that name has that id |
| Catalog.CodesForSpec | src/app/page.tsx:13-22 | a name's code list has no duplicate, holds exactly the ids of the records with that name, and lists them in first-seen order |
| Catalog.StampedCoded | src/app/page.tsx:25-28 | with the collected map, each stamped record carries the code list of its own name |
| Catalog.JsMap.Set | src/app/page.tsx:31 | `Map.set` overwrites the value but keeps a key's first insertion position |
| Catalog.FromEntries | src/app/page.tsx:31 | the id-keyed map lists each id once, in first-seen order, and files each record under its own id |
| Catalog.FromEntriesLastWins | src/app/page.tsx:31 | the record kept for an id is the last record with that id |
| Catalog.ProcessStations | src/app/page.tsx:9-34 | the method returns `Processed(rs)`: stamping followed by the id-keyed `Map` |
| Catalog.ProcessedShape | src/app/page.tsx:9-34 | the result's ids are the input ids without repeats, in first-seen order; it is no longer than the input and empty only for an empty input |
| Catalog.ProcessedFirstSeenOrder | src/app/page.tsx:31 | stations come out in the order their ids first appear in the input |
| Catalog.DedupKeepsLast | src/app/page.tsx:31 | every deduplicated entry is some input record after which its id does not occur again |
| Catalog.LastWithId | src/app/page.tsx:31 | for an id present, the record found is a station of the list with that id |
| Catalog.ProcessedKeepsLast | src/app/page.tsx:25-31 | every output station is the last input record with its id, stamped with its name's codes |
| Catalog.ProcessedCodes | src/app/page.tsx:19-27 | an output station's codes are the code list of its English name, and they include its own id |
| Catalog.SameNameSameCodes | src/app/page.tsx:25-28 | two output stations with one English name (an interchange) carry the same codes |
| Catalog.EveryIdSurvives | src/app/page.tsx:31 | every input id is the id of some output station |
| Catalog.UniqueIdsKeepEveryRecord | src/app/page.tsx:25-31 | when ids are unique the result is the stamped input, record for record |
| Catalog.DedupOfUniqueIds | src/app/page.tsx:31 | with unique ids the `Map` round trip changes nothing |
| Catalog.ProcessedNames | src/app/page.tsx:31-42 | processing introduces no English name, so the total is at most the number of input names |
| Catalog.TotalStations | src/app/page.tsx:40-42 | the distinct-name count is at most the number of stations, and zero exactly for no stations |
| Catalog.NamesBound | src/app/page.tsx:41-42 | a non-empty list has between one and its length many distinct names |
| Catalog.Home | src/app/page.tsx:36-42 | the page shows "Could not load stations" exactly when there are no records; otherwise the game gets a total between 1 and the number of processed stations |
| GuessIndex.BuildGuessMaps | src/components/mrt-challenge-game.tsx:233-257 | the loop builds exactly `Indexes`, the four first-wins maps: each step adds a station's key only when the key is not yet taken, and a station without an abbreviation is left out of the abbreviation map |
| GuessIndex.KeyOf | src/components/mrt-challenge-game.tsx:241-254 | a station is left out of a map only in abbreviation mode and only when it has no abbreviation; an English or abbreviation key is lower-case letters and digits only, a Chinese key has no whitespace |
| GuessIndex.FirstFiledMeans | src/components/mrt-challenge-game.tsx:241-255 | the reference position is a station filed under the key with no earlier station so filed; there is none iff no station has the key |
| GuessIndex.IndexIsFirstFiled | src/components/mrt-challenge-game.tsx:241-255 | a key is in a map iff some station is filed under it, and it maps to the first such station in list order |
| GuessIndex.IndexFiled | src/components/mrt-challenge-game.tsx:241-255 | every map entry is one of the stations, filed under its own key |
| GuessIndex.LookupFindsFirst | src/components/mrt-challenge-game.tsx:267-271 | looking up a typed answer yields the first station whose key equals the answer's key in the chosen language (Chinese uses the space-only normaliser), or nothing |
| GuessIndex.AbbreviationNeedsOne | src/components/mrt-challenge-game.tsx:251-254 | an abbreviation answer only ever matches a station that has a non-empty abbreviation |
| GuessIndex.LookupInStations | src/components/mrt-challenge-game.tsx:267-271 | a matched station is always one of the game's stations |
| GuessIndex.JurongEastSpellings | src/components/mrt-challenge-game.tsx:267-271 | "JURONG-EAST" and "Jurong   East" find what "Jurong East" finds in English mode |
| LineGrouping.LineCode | src/components/mrt-challenge-game.tsx:67-70 | the line code is the longest prefix of capital letters of the id, empty when the id does not start with one |
| LineGrouping.GroupLine | src/components/mrt-challenge-game.tsx:323-327 | a station is filed under CC iff its line code is CC or CE, and under its own line code otherwise |
| LineGrouping.LineName | src/components/mrt-challenge-game.tsx:52-63 | every line of the display order has a name, and only two-capital codes have one |
| LineGrouping.ParseInt | src/components/mrt-challenge-game.tsx:335-336 | `parseInt` yields nothing on the empty string and on a string starting with anything but whitespace, a sign or a digit, and a non-negative number on a string starting with a digit |
| LineGrouping.LeadingDigits | src/components/mrt-challenge-game.tsx:335-336 | the digit run is all digits and is followed by a non-digit or the end |
| LineGrouping.ParseIntReadsDecimal | src/components/mrt-challenge-game.tsx:335-336 | `parseInt` of a decimal numeral followed by a non-digit reads the number back |
| LineGrouping.StationCodeParts | src/components/mrt-challenge-game.tsx:67-70 | for a code made of capitals, a number and a suffix not starting with a digit (e.g. `NS4`, `CC4A`), the line code is the capitals and the sort key is the number |
| LineGrouping.SortBy | src/components/mrt-challenge-game.tsx:334-339 | after the in-place sort the array is `SortByKey` of its old contents |
| LineGrouping.InsertAt | src/components/mrt-challenge-game.tsx:334-339 | one insertion step puts the next element into the sorted prefix and leaves the rest of the array alone |
| LineGrouping.InsertAtGap | src/components/mrt-challenge-game.tsx:334-339 | the insertion point is after the last smaller-or-equal key |
| LineGrouping.SortByKeySorted | src/components/mrt-challenge-game.tsx:334-339 | the sorted list has non-decreasing station numbers |
| LineGrouping.SortByKeyPermutes | src/components/mrt-challenge-game.tsx:334-339 | the sorted list is a permutation of the list |
| LineGrouping.SortByKeyStable | src/components/mrt-challenge-game.tsx:334-339 | stations with equal numbers keep their relative order |
| LineGrouping.InsertSorted | src/components/mrt-challenge-game.tsx:334-339 | inserting into a sorted list keeps it sorted and adds one element |
| LineGrouping.InsertPermutes | src/components/mrt-challenge-game.tsx:334-339 | inserting adds exactly that element to the multiset |
| LineGrouping.InsertStable | src/components/mrt-challenge-game.tsx:334-339 | inserting appends the element to the run of its key and leaves the other runs alone |
| LineGrouping.WithKeyAppend | src/components/mrt-challenge-game.tsx:334-339 | selecting one key distributes over concatenation |
| LineGrouping.SortByKeyEmpty | src/components/mrt-challenge-game.tsx:334-346 | sorting a list yields the empty list only when the list is empty |
| LineGrouping.CollectByLine | src/components/mrt-challenge-game.tsx:320-331 | the grouping loop (line code, CE filed as CC, create the list if absent, push) builds exactly `LineGroups` |
| LineGrouping.LineGroupsAreOnLine | src/components/mrt-challenge-game.tsx:322-331 | a line has a group iff some station is filed under it, and the group is those stations in list order |
| LineGrouping.OnLineMembers | src/components/mrt-challenge-game.tsx:322-331 | a station is in a line's list iff it is one of the stations and its line (CE counted as CC) is that line |
| LineGrouping.SortGroups | src/components/mrt-challenge-game.tsx:333-340 | every list of the groups is sorted by station number, and the set of lines is unchanged |
| LineGrouping.SortedGroups | src/components/mrt-challenge-game.tsx:333-340 | sorting keeps the same lines, and each line's list becomes its own stations ordered by number, stations of equal number keeping their order |
| LineGrouping.GroupStations | src/components/mrt-challenge-game.tsx:319-347 | the method returns `Grouped`: group, sort, map over `LINE_ORDER`, drop empty sections |
| LineGrouping.SectionsMatchBoard | src/components/mrt-challenge-game.tsx:319-347 | the source's pipeline equals the direct description `Board` for any line order |
| LineGrouping.GroupedIsBoard | src/components/mrt-challenge-game.tsx:319-347 | `groupedStations` is `Board` over `LINE_ORDER` |
| LineGrouping.BoardSections | src/components/mrt-challenge-game.tsx:342-346 | each section is a listed line with a station, its `lineNames` name, and that line's stations sorted by number |
| LineGrouping.BoardCovers | src/components/mrt-challenge-game.tsx:342-346 | every listed line that has a station gets a section |
| LineGrouping.BoardOrder | src/components/mrt-challenge-game.tsx:342-346 | the sections follow the line order |
| LineGrouping.GroupedSection | src/components/mrt-challenge-game.tsx:319-347 | each section on the board is a line of `LINE_ORDER` with a display name; its stations are non-empty, sorted by number, a permutation of the stations on that line, and stable among equal numbers |
| LineGrouping.GroupedOrder | src/components/mrt-challenge-game.tsx:342-346 | sections appear in `LINE_ORDER` order |
| LineGrouping.LineOrderDistinct | src/components/mrt-challenge-game.tsx:65 | no line is listed twice |
| LineGrouping.StationShown | src/components/mrt-challenge-game.tsx:319-347 | a station appears on the board iff its line (CE counted as CC) is one of `LINE_ORDER` |
| Session.Ticked | src/components/mrt-challenge-game.tsx:191-207 | a tick changes only the clock and the game-over flag (language, progress, start and win flags are kept), never raises the time, keeps it non-negative, and does something iff the game is running and the timer is on |
| Session.Submitted | src/components/mrt-challenge-game.tsx:263-304 | a submission adds at most one found name and never removes one; language, clock and started flag are untouched |
| Session.InitialConsistent | src/components/mrt-challenge-game.tsx:170-182 | the initial state satisfies the session invariant |
| Session.ResetConsistent | src/components/mrt-challenge-game.tsx:213-223 | resetting from any state restores the invariant |
| Session.StartedConsistent | src/components/mrt-challenge-game.tsx:360-363 | starting keeps the invariant |
| Session.PausedConsistent | src/components/mrt-challenge-game.tsx:462 | pausing keeps the invariant in every state |
| Session.ResumedConsistent | src/components/mrt-challenge-game.tsx:466 | resuming a running game keeps the invariant |
| Session.GaveUpConsistent | src/components/mrt-challenge-game.tsx:306-313 | giving up a started game keeps the invariant |
| Session.GiveUpWhenOver | src/components/mrt-challenge-game.tsx:306-313 | giving up after the game is over keeps every field but the timer flag, and keeps the invariant |
| Session.TickedConsistent | src/components/mrt-challenge-game.tsx:191-207 | a tick keeps the invariant, including the clock staying within 0 to 900 seconds |
| Session.SubmittedConsistent | src/components/mrt-challenge-game.tsx:263-304 | a submission keeps the invariant: found names stay real station names, and the game is won exactly when all names are found |
| Session.SubmitIgnored | src/components/mrt-challenge-game.tsx:265 | empty input, a finished game or a paused timer leave everything unchanged |
| Session.SubmitMiss | src/components/mrt-challenge-game.tsx:273-277 | an unknown answer records a wrong guess and changes nothing else |
| Session.SubmitRepeat | src/components/mrt-challenge-game.tsx:281-285 | an answer for a name already found raises "Already found" with that name and changes nothing |
| Session.SubmitNew | src/components/mrt-challenge-game.tsx:286-300 | a new name is added and recorded as a right guess; when it completes the total the game is won and over, the timer stops and "Congratulations" is raised, otherwise nothing else changes |
| Session.SubmitMatchesFirst | src/components/mrt-challenge-game.tsx:267-289 | an answer whose key no station has is a miss; otherwise the first station with that key has its name found afterwards |
| Session.GiveUpRevealsAll | src/components/mrt-challenge-game.tsx:306-313 | giving up ends the game, stops the timer, keeps the found names and reveals every station |
| Session.CountdownRuns | src/components/mrt-challenge-game.tsx:194-206 | while time remains, n ticks take exactly n seconds off and change nothing else |
| Session.CountdownEnds | src/components/mrt-challenge-game.tsx:196-203 | the clock reads 1 one tick before the end, and the last tick sets it to 0, ends the game and shows the time's-up message |
| Session.TicksSplit | src/components/mrt-challenge-game.tsx:194-206 | m + n ticks are m ticks followed by n ticks |
| Session.FifteenMinutes | src/components/mrt-challenge-game.tsx:194-206 | a started game is still running after 899 ticks and over, at 0, after 900 |
| Session.StoppedClock | src/components/mrt-challenge-game.tsx:191-193 | a finished game or a paused timer makes ticks do nothing |
| Session.GameSession.constructor | src/components/mrt-challenge-game.tsx:161-182 | the component starts in the initial state with its lookup maps built from the stations |
| Session.GameSession.HandleSubmit | src/components/mrt-challenge-game.tsx:263-304 | the fields are updated as `Submitted` says, the notification is returned, and the invariant is kept |
| Session.GameSession.Tick | src/components/mrt-challenge-game.tsx:194-206 | one interval callback updates the fields as `Ticked` says and keeps the invariant |
| Session.GameSession.HandleGiveUp | src/components/mrt-challenge-game.tsx:306-313 | giving up updates the fields as `GaveUp` says and keeps the invariant |
| Session.GameSession.ResetGame | src/components/mrt-challenge-game.tsx:213-223 | every field returns to its initial value under the chosen language |
| Session.GameSession.HandleLanguageChange | src/components/mrt-challenge-game.tsx:225-227 | a language change calls the reset with the new language and keeps the invariant |
| Session.GameSession.StartGame | src/components/mrt-challenge-game.tsx:360-363 | starting sets the started and timer flags and nothing else |
| Session.GameSession.Pause | src/components/mrt-challenge-game.tsx:462 | pausing clears the timer flag and nothing else |
| Session.GameSession.Resume | src/components/mrt-challenge-game.tsx:466 | resuming sets the timer flag and nothing else |

## Left out

- `Text.Lower`: lower-cases only `A`-`Z`. JavaScript's `toLowerCase` also maps non-ASCII capitals. Those results are non-ASCII and `\W` deletes them anyway, except two: the Kelvin sign (U+212A) becomes `k`, and the dotted capital I (U+0130) becomes `i` plus a combining dot. `Normalize` deletes such characters, where the source would keep a letter. Every non-ASCII character counts as a non-word character, as in JavaScript's `\W`.
- `NumberKey`: an id whose number does not parse (NaN in the source) gets key 0. The source's comparator then yields NaN, which `Array.prototype.sort` treats as "equal". Real station ids always carry a number.
- `LineGrouping.SortBy` models `Array.prototype.sort` as an insertion sort. Any stable sort with a consistent comparator gives the same output, and `SortByKeySorted`, `SortByKeyPermutes` and `SortByKeyStable` pin that output down. Each line's list is held as a sequence in the map and is copied into a fresh array for sorting. The source sorts the array stored in the object in place, and that aliasing is not modelled.
- `Session.Ticked` models one interval callback. The React effect that starts and clears the interval, the `mounted` flag and the dependency list are not modelled. The interval is assumed to run exactly while the game is not over and the timer is on.
- Toasts are modelled as a tag carrying their data (the name, the total), not their text or variant.
- The typed text `userInput` and its clearing, the progress percentage and all rendering (colours, badges, cards) are not modelled.
- `resetGame`'s default argument (the current language) is not modelled: `Session.GameSession.ResetGame` always takes the language, and the Play Again buttons, which call it with no argument, are modelled as passing the current one.
- The handlers are total, as in the source. Three need a precondition to keep the invariant: `Session.GameSession.StartGame` requires a game not yet started, `Session.GameSession.Resume` a running game, and `Session.GameSession.HandleGiveUp` a started game. The first two are the states in which the page shows the Start and Resume buttons. The page shows Give Up only while the game is started and not over; `HandleGiveUp` admits a finished game too, where giving up again changes nothing but the timer flag and shows the game-over message (`Session.GiveUpWhenOver`). `Session.GameSession.HandleLanguageChange` and `Session.GameSession.Pause` need none, though the page disables the language selector once the game has started and shows Pause only while the game runs with the timer on: the model treats a language change in mid-game as a reset, and a pause of a stopped timer changes nothing.
- `Session.GameSession.constructor` takes the station list and the total as parameters. `getStations`, `src/app/actions.ts` and the station data file are not part of this model.
- The future-network page (`/mrt+`), its data, the layout and the UI components are not part of this model.
- The comment at src/app/page.tsx:30 says the id-keyed `Map` removes interchange duplicates. The code only removes records with the same id. An interchange listed under two codes survives twice, once per line, sharing its code list. The model follows the code: `Catalog.SameNameSameCodes`, `Catalog.EveryIdSurvives`.
- Dedup keeps the last record with an id at that id's first position, as JavaScript's `Map` does: `Catalog.ProcessedKeepsLast`, `Catalog.ProcessedFirstSeenOrder`.
