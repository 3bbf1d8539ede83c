/** The quiz session of `MrtChallengeGame`
    (src/components/mrt-challenge-game.tsx:161-363).

    The component keeps eight pieces of state: the English names found so
    far, the last guess, the answer language, the game-over and game-won
    flags, the seconds left, and whether the game has started and the timer
    is running. The handlers (submit, the once-a-second tick, give up,
    reset, start, pause, resume, language change) each update some of them.
    Here every handler is a pure transition on a `Snapshot` of that state,
    and `GameSession` is the component's state as an object whose methods
    perform the same updates field by field. The handlers themselves are
    total, as in the source; where the invariant depends on a button that
    the page only shows in some states (Start, Resume, Give Up), that
    state is a precondition of the method and of the invariant lemma. */
module Session {
  import opened StationData
  import opened GuessIndex
  import Text
  import Catalog
  import Seqs

  /** 15 minutes, in seconds. */
  const GameLength: nat := 15 * 60

  /** `lastGuess`: null before any guess of this round, else the English
      name matched (null for a miss) and whether the guess was right. */
  datatype LastGuess = NoGuess | Guess(stationName: Option<string>, correct: bool)

  /** The notification a handler raises, if any. */
  datatype Toast =
    | NoToast
    | AlreadyFound(name: string)
    | Congratulations(total: nat)
    | TimesUp
    | GameOver

  datatype Snapshot = Snapshot(
    found: set<string>,
    lastGuess: LastGuess,
    language: Language,
    gameOver: bool,
    gameWon: bool,
    timeRemaining: int,
    gameStarted: bool,
    timerActive: bool)

  /** A handler's outcome: the next state and the notification raised. */
  datatype Step = Step(next: Snapshot, toast: Toast)

  /** The state before a game starts, and what `resetGame` restores. */
  function Initial(language: Language): (g: Snapshot)
    ensures g.found == {} && g.lastGuess == NoGuess && g.language == language
    ensures !g.gameOver && !g.gameWon && !g.gameStarted && !g.timerActive
    ensures g.timeRemaining == 900
  {
    Snapshot({}, NoGuess, language, false, false, GameLength, false, false)
  }

  // ---------------------------------------------------------------------
  // Transitions

  /** `resetGame(language)`, reachable from the Play Again buttons, which
      the page shows only once the game is over, and from the language
      selector through `handleLanguageChange`. */
  function Reset(g: Snapshot, language: Language): Snapshot {
    Initial(language)
  }

  /** `startGame`, behind the Start button shown only before the start. */
  function Started(g: Snapshot): Snapshot {
    g.(gameStarted := true, timerActive := true)
  }

  /** The Pause button, shown while the game runs and the timer is on. */
  function Paused(g: Snapshot): Snapshot {
    g.(timerActive := false)
  }

  /** The Resume button, shown while the game runs and the timer is off. */
  function Resumed(g: Snapshot): Snapshot {
    g.(timerActive := true)
  }

  /** `handleGiveUp`, behind the Give Up button shown while the game runs. */
  function GaveUp(g: Snapshot): (r: Step) {
    Step(g.(gameOver := true, timerActive := false), GameOver)
  }

  /** One second of the timer. The interval only runs while the game is not
      over and the timer is on; at one second or less the clock stops at
      zero and the game is over, the timer flag left on. */
  function Ticked(g: Snapshot): (r: Step)
    ensures r.next.found == g.found && r.next.lastGuess == g.lastGuess
    ensures r.next.timerActive == g.timerActive && r.next.gameWon == g.gameWon
    ensures r.next.language == g.language && r.next.gameStarted == g.gameStarted
    ensures g.timeRemaining >= 0 ==> 0 <= r.next.timeRemaining <= g.timeRemaining
    ensures r.next != g <==> !g.gameOver && g.timerActive
  {
    if g.gameOver || !g.timerActive then Step(g, NoToast)
    else if g.timeRemaining <= 1 then Step(g.(timeRemaining := 0, gameOver := true), TimesUp)
    else Step(g.(timeRemaining := g.timeRemaining - 1), NoToast)
  }

  /** `handleSubmit` on the text typed, given the lookup maps and the
      number of distinct names. */
  function Submitted(g: Snapshot, maps: GuessMaps, total: nat, input: string): (r: Step)
    ensures g.found <= r.next.found && |r.next.found| <= |g.found| + 1
    ensures r.next.language == g.language && r.next.timeRemaining == g.timeRemaining
    ensures r.next.gameStarted == g.gameStarted
  {
    if input == [] || g.gameOver || !g.timerActive then Step(g, NoToast)
    else
      match Lookup(maps, g.language, input)
      case None => Step(g.(lastGuess := Guess(None, false)), NoToast)
      case Some(station) =>
        var name := station.english;
        if name in g.found then Step(g, AlreadyFound(name))
        else
          var found := g.found + {name};
          var h := g.(found := found, lastGuess := Guess(Some(name), true));
          if |found| == total then Step(h.(gameOver := true, timerActive := false, gameWon := true), Congratulations(total))
          else Step(h, NoToast)
  }

  /** Whether a station's names are shown on the board: found, or the game
      is over. */
  predicate Revealed(g: Snapshot, name: string) {
    name in g.found || g.gameOver
  }

  /** Running the timer `n` seconds. */
  function Ticks(g: Snapshot, n: nat): Snapshot
    decreases n
  {
    if n == 0 then g else Ticks(Ticked(g).next, n - 1)
  }

  // ---------------------------------------------------------------------
  // The invariant of a session over the names in `names`

  ghost predicate Consistent(g: Snapshot, names: set<string>) {
    && 0 <= g.timeRemaining <= GameLength
    && g.found <= names
    && (!g.gameStarted ==> g == Initial(g.language))
    && (g.timerActive ==> g.gameStarted)
    && (g.gameOver ==> g.gameStarted)
    && (g.gameWon ==> g.gameOver && !g.timerActive)
    && (g.gameWon <==> g.found == names)
    && (g.timeRemaining == 0 ==> g.gameOver)
    && (g.gameOver && g.timerActive ==> g.timeRemaining == 0 && !g.gameWon)
    && (g.lastGuess.Guess? ==> (g.lastGuess.correct <==> g.lastGuess.stationName.Some?))
    && (g.lastGuess.Guess? && g.lastGuess.stationName.Some? ==> g.lastGuess.stationName.value in g.found)
  }

  /** The maps and the count the page hands to the game. */
  ghost predicate Setup(stations: seq<Station>, maps: GuessMaps, total: nat) {
    stations != [] && maps == Indexes(stations) && total == |Names(stations)|
  }

  lemma InitialConsistent(stations: seq<Station>, language: Language)
    requires stations != []
    ensures Consistent(Initial(language), Names(stations))
  {
    NamesHas(stations, 0);
  }

  lemma ResetConsistent(g: Snapshot, stations: seq<Station>, language: Language)
    requires stations != []
    ensures Consistent(Reset(g, language), Names(stations))
  {
    InitialConsistent(stations, language);
  }

  lemma StartedConsistent(g: Snapshot, names: set<string>)
    requires Consistent(g, names) && !g.gameStarted
    ensures Consistent(Started(g), names)
  {
  }

  /** Stopping the timer is harmless in every state. */
  lemma PausedConsistent(g: Snapshot, names: set<string>)
    requires Consistent(g, names)
    ensures Consistent(Paused(g), names)
  {
  }

  /** Starting the timer again needs a game that is running. */
  lemma ResumedConsistent(g: Snapshot, names: set<string>)
    requires Consistent(g, names) && g.gameStarted && !g.gameOver
    ensures Consistent(Resumed(g), names)
  {
  }

  lemma GaveUpConsistent(g: Snapshot, names: set<string>)
    requires Consistent(g, names) && g.gameStarted
    ensures Consistent(GaveUp(g).next, names)
  {
  }

  /** Giving up once the game is over changes nothing but the timer flag,
      which the stopped clock no longer reads. */
  lemma GiveUpWhenOver(g: Snapshot, names: set<string>)
    requires Consistent(g, names) && g.gameOver
    ensures GaveUp(g).next == g.(timerActive := false)
    ensures Consistent(GaveUp(g).next, names)
  {
  }

  lemma TickedConsistent(g: Snapshot, names: set<string>)
    requires Consistent(g, names)
    ensures Consistent(Ticked(g).next, names)
  {
  }

  /** A submission keeps the invariant: a matched name is always one of the
      stations' names, so the found set fills up exactly when it reaches
      the count of names. */
  lemma SubmittedConsistent(g: Snapshot, stations: seq<Station>, maps: GuessMaps, total: nat, input: string)
    requires Setup(stations, maps, total) && Consistent(g, Names(stations))
    ensures Consistent(Submitted(g, maps, total, input).next, Names(stations))
  {
    var names := Names(stations);
    var hit := Lookup(maps, g.language, input);
    if input != [] && !g.gameOver && g.timerActive && hit.Some? {
      LookupInStations(stations, g.language, input);
      var i :| 0 <= i < |stations| && stations[i] == hit.value;
      var name := hit.value.english;
      NamesHas(stations, i);
      if name !in g.found {
        var found := g.found + {name};
        Seqs.SubsetCard(found, names);
        if found != names {
          assert |found| < |names| by {
            var y :| y in names && y !in found;
            Seqs.SubsetCard(found, names - {y});
          }
        }
      }
    }
  }

  // ---------------------------------------------------------------------
  // What the handlers promise

  /** A submission does nothing with an empty input, after the game is
      over, or while the timer is paused. */
  lemma SubmitIgnored(g: Snapshot, maps: GuessMaps, total: nat, input: string)
    requires input == [] || g.gameOver || !g.timerActive
    ensures Submitted(g, maps, total, input) == Step(g, NoToast)
  {
  }

  /** A guess that matches no station records a miss and changes nothing
      else. */
  lemma SubmitMiss(g: Snapshot, maps: GuessMaps, total: nat, input: string)
    requires input != [] && !g.gameOver && g.timerActive
    requires Lookup(maps, g.language, input) == None
    ensures Submitted(g, maps, total, input).next == g.(lastGuess := Guess(None, false))
  {
  }

  /** A guess naming a station already found changes nothing, not even the
      last guess, and raises the "Already found" notification. */
  lemma SubmitRepeat(g: Snapshot, maps: GuessMaps, total: nat, input: string)
    requires input != [] && !g.gameOver && g.timerActive
    requires Lookup(maps, g.language, input).Some?
    requires Lookup(maps, g.language, input).value.english in g.found
    ensures Submitted(g, maps, total, input) == Step(g, AlreadyFound(Lookup(maps, g.language, input).value.english))
  {
  }

  /** A guess naming a new station adds exactly its English name, records
      it as the last guess, and wins the game exactly when the found set
      reaches the number of names, which stops the timer. */
  lemma SubmitNew(g: Snapshot, maps: GuessMaps, total: nat, input: string)
    requires input != [] && !g.gameOver && g.timerActive
    requires Lookup(maps, g.language, input).Some?
    requires Lookup(maps, g.language, input).value.english !in g.found
    ensures var name := Lookup(maps, g.language, input).value.english;
      var r := Submitted(g, maps, total, input);
      && r.next.found == g.found + {name}
      && |r.next.found| == |g.found| + 1
      && r.next.lastGuess == Guess(Some(name), true)
      && (|r.next.found| == total ==>
            r.next.gameWon && r.next.gameOver && !r.next.timerActive && r.toast == Congratulations(total))
      && (|r.next.found| != total ==>
            r.next == g.(found := r.next.found, lastGuess := r.next.lastGuess) && r.toast == NoToast)
  {
  }

  /** The station a guess matches is the first station, in list order,
      whose name in the chosen language normalises to the same text. */
  lemma SubmitMatchesFirst(stations: seq<Station>, g: Snapshot, input: string)
    requires input != [] && !g.gameOver && g.timerActive
    ensures var key := if g.language == Chinese then Text.NormalizeChinese(input) else Text.Normalize(input);
      var f := FirstFiled(stations, g.language, key);
      var r := Submitted(g, Indexes(stations), |Names(stations)|, input);
      (f.None? ==> r.next.lastGuess == Guess(None, false))
      && (f.Some? ==> stations[f.value].english in r.next.found)
  {
    LookupFindsFirst(stations, g.language, input);
  }

  /** Giving up ends the game, stops the timer, keeps the found set, and
      reveals every station. */
  lemma GiveUpRevealsAll(g: Snapshot, name: string)
    ensures var h := GaveUp(g).next;
      h.found == g.found && h.gameOver && !h.timerActive && h.gameWon == g.gameWon && Revealed(h, name)
  {
  }

  /** While the game runs, `n` seconds take `n` off the clock as long as
      that leaves at least one second. */
  lemma {:induction false} CountdownRuns(g: Snapshot, n: nat)
    requires !g.gameOver && g.timerActive && n < g.timeRemaining
    ensures Ticks(g, n) == g.(timeRemaining := g.timeRemaining - n)
    decreases n
  {
    if n > 0 {
      var h := Ticked(g).next;
      assert h == g.(timeRemaining := g.timeRemaining - 1);
      CountdownRuns(h, n - 1);
    }
  }

  /** With `t` seconds left, the `t`-th tick ends the game at zero, the
      timer flag left on. */
  lemma CountdownEnds(g: Snapshot)
    requires !g.gameOver && g.timerActive && g.timeRemaining >= 1
    ensures Ticks(g, g.timeRemaining - 1).timeRemaining == 1
    ensures Ticks(g, g.timeRemaining) == g.(timeRemaining := 0, gameOver := true)
    ensures Ticked(Ticks(g, g.timeRemaining - 1)).toast == TimesUp
  {
    var t: nat := g.timeRemaining;
    CountdownRuns(g, t - 1);
    var h := Ticks(g, t - 1);
    assert Ticks(h, 1) == Ticked(h).next;
    TicksSplit(g, t - 1, 1);
  }

  lemma {:induction false} TicksSplit(g: Snapshot, m: nat, n: nat)
    ensures Ticks(g, m + n) == Ticks(Ticks(g, m), n)
    decreases m
  {
    if m > 0 {
      TicksSplit(Ticked(g).next, m - 1, n);
    }
  }

  /** A fresh game lasts exactly 900 seconds of running timer: after 899
      ticks it is still on, the 900th ends it. */
  lemma FifteenMinutes(language: Language)
    ensures !Ticks(Started(Initial(language)), 899).gameOver
    ensures Ticks(Started(Initial(language)), 900).gameOver
    ensures Ticks(Started(Initial(language)), 900).timeRemaining == 0
  {
    var g := Started(Initial(language));
    CountdownRuns(g, 899);
    CountdownEnds(g);
  }

  /** A paused or finished game does not move with the clock. */
  lemma {:induction false} StoppedClock(g: Snapshot, n: nat)
    requires g.gameOver || !g.timerActive
    ensures Ticks(g, n) == g
  {
    if n > 0 {
      StoppedClock(g, n - 1);
    }
  }

  // ---------------------------------------------------------------------
  // The component's state as an object

  class GameSession {
    const stations: seq<Station>
    const totalStations: nat
    const maps: GuessMaps

    var found: set<string>
    var lastGuess: LastGuess
    var language: Language
    var gameOver: bool
    var gameWon: bool
    var timeRemaining: int
    var gameStarted: bool
    var timerActive: bool

    function State(): Snapshot
      reads this
    {
      Snapshot(found, lastGuess, language, gameOver, gameWon, timeRemaining, gameStarted, timerActive)
    }

    ghost predicate Valid()
      reads this
    {
      Setup(stations, maps, totalStations) && Consistent(State(), Names(stations))
    }

    /** The component mounted with the page's stations and their count of
        distinct names; the guess maps are built once. */
    constructor(stations: seq<Station>, totalStations: nat)
      requires stations != [] && totalStations == Catalog.TotalStations(stations)
      ensures Valid()
      ensures this.stations == stations && State() == Initial(English)
    {
      this.stations := stations;
      this.totalStations := totalStations;
      var built := BuildGuessMaps(stations);
      this.maps := built;
      found := {};
      lastGuess := NoGuess;
      language := English;
      gameOver := false;
      gameWon := false;
      timeRemaining := GameLength;
      gameStarted := false;
      timerActive := false;
      new;
      InitialConsistent(stations, English);
    }

    method HandleSubmit(input: string) returns (toast: Toast)
      requires Valid()
      modifies this
      ensures Valid()
      ensures Step(State(), toast) == Submitted(old(State()), maps, totalStations, input)
    {
      SubmittedConsistent(State(), stations, maps, totalStations, input);
      toast := NoToast;
      if input == [] || gameOver || !timerActive {
        return;
      }
      var station := Lookup(maps, language, input);
      if station.None? {
        lastGuess := Guess(None, false);
        return;
      }
      var name := station.value.english;
      if name in found {
        toast := AlreadyFound(name);
      } else {
        found := found + {name};
        lastGuess := Guess(Some(name), true);
        if |found| == totalStations {
          gameOver := true;
          timerActive := false;
          gameWon := true;
          toast := Congratulations(totalStations);
        }
      }
    }

    method Tick() returns (toast: Toast)
      requires Valid()
      modifies this
      ensures Valid()
      ensures Step(State(), toast) == Ticked(old(State()))
    {
      TickedConsistent(State(), Names(stations));
      toast := NoToast;
      if gameOver || !timerActive {
        return;
      }
      if timeRemaining <= 1 {
        gameOver := true;
        toast := TimesUp;
        timeRemaining := 0;
      } else {
        timeRemaining := timeRemaining - 1;
      }
    }

    method HandleGiveUp() returns (toast: Toast)
      requires Valid() && gameStarted
      modifies this
      ensures Valid()
      ensures Step(State(), toast) == GaveUp(old(State()))
    {
      GaveUpConsistent(State(), Names(stations));
      gameOver := true;
      timerActive := false;
      toast := GameOver;
    }

    method ResetGame(newLanguage: Language)
      requires Valid()
      modifies this
      ensures Valid()
      ensures State() == Reset(old(State()), newLanguage)
    {
      language := newLanguage;
      found := {};
      lastGuess := NoGuess;
      gameOver := false;
      gameWon := false;
      timeRemaining := GameLength;
      gameStarted := false;
      timerActive := false;
      InitialConsistent(stations, newLanguage);
    }

    /** `handleLanguageChange`: a reset under the chosen language. */
    method HandleLanguageChange(newLanguage: Language)
      requires Valid()
      modifies this
      ensures Valid()
      ensures State() == Reset(old(State()), newLanguage)
    {
      ResetGame(newLanguage);
    }

    method StartGame()
      requires Valid() && !gameStarted
      modifies this
      ensures Valid()
      ensures State() == Started(old(State()))
    {
      StartedConsistent(State(), Names(stations));
      gameStarted := true;
      timerActive := true;
    }

    method Pause()
      requires Valid()
      modifies this
      ensures Valid()
      ensures State() == Paused(old(State()))
    {
      PausedConsistent(State(), Names(stations));
      timerActive := false;
    }

    method Resume()
      requires Valid() && gameStarted && !gameOver && !timerActive
      modifies this
      ensures Valid()
      ensures State() == Resumed(old(State()))
    {
      ResumedConsistent(State(), Names(stations));
      timerActive := true;
    }

    /** Whether a station's names are shown on its board tile. */
    method IsRevealed(name: string) returns (shown: bool)
      ensures shown <==> Revealed(State(), name)
    {
      shown := name in found || gameOver;
    }
  }
}
