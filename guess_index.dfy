/** The four answer lookups of the quiz (src/components/mrt-challenge-game.tsx:233-257)
    and the lookup a submitted answer goes through (:267-271).

    Each language has its own map from a normalised answer to a station.
    The maps are filled in one pass over the station list, and a key that
    is already present is never overwritten, so every key is answered by the
    FIRST station in list order that normalises to it. */
module GuessIndex {
  import opened StationData
  import opened Seqs
  import opened Text

  datatype Language = English | Pinyin | Chinese | Abbreviation

  /** The key under which `s` is filed in the map of `lang`, or None when
      the station is not filed there at all (an abbreviation that is
      missing or empty). */
  function KeyOf(lang: Language, s: Station): (key: Option<string>)
    ensures key.None? <==> lang == Abbreviation && !HasAbbreviation(s)
    ensures key.Some? && lang != Chinese ==> forall i :: 0 <= i < |key.value| ==> IsLowerAlnum(key.value[i])
    ensures key.Some? && lang == Chinese ==> forall i :: 0 <= i < |key.value| ==> !IsSpace(key.value[i])
  {
    match lang
    case English => Some(Normalize(s.english))
    case Pinyin => Some(Normalize(s.pinyin))
    case Chinese => Some(NormalizeChinese(s.chinese))
    case Abbreviation =>
      if HasAbbreviation(s) then Some(Normalize(s.abbreviation.value)) else None
  }

  /** The key of every station, in list order. */
  function Keys(ss: seq<Station>, lang: Language): seq<Option<string>> {
    seq(|ss|, i requires 0 <= i < |ss| => KeyOf(lang, ss[i]))
  }

  /** Reference definition: the position of the first station in `ss`
      filed under `key`. */
  function FirstFiled(ss: seq<Station>, lang: Language, key: string): (r: Option<nat>)
    ensures r.Some? ==> r.value < |ss|
  {
    var keys := Keys(ss, lang);
    if Some(key) in keys then Some(FirstIndex(keys, Some(key))) else None
  }

  /** The map the building loop holds after the stations `ss`: a station
      is added under its key unless that key is already taken. */
  function Index(ss: seq<Station>, lang: Language): map<string, Station> {
    if ss == [] then map[]
    else
      var n := |ss| - 1;
      var m := Index(ss[..n], lang);
      match KeyOf(lang, ss[n])
      case None => m
      case Some(k) => if k in m then m else m[k := ss[n]]
  }

  /** The four maps, one per answer language. */
  datatype GuessMaps = GuessMaps(
    english: map<string, Station>,
    pinyin: map<string, Station>,
    chinese: map<string, Station>,
    abbreviation: map<string, Station>)
  {
    function For(lang: Language): map<string, Station> {
      match lang
      case English => english
      case Pinyin => pinyin
      case Chinese => chinese
      case Abbreviation => abbreviation
    }
  }

  /** What the maps hold once every station has been visited. */
  function Indexes(stations: seq<Station>): GuessMaps {
    GuessMaps(Index(stations, English), Index(stations, Pinyin),
              Index(stations, Chinese), Index(stations, Abbreviation))
  }

  /** One more station, filed under `k`: added unless `k` is taken. */
  lemma IndexStep(ss: seq<Station>, i: nat, lang: Language, k: string)
    requires i < |ss| && KeyOf(lang, ss[i]) == Some(k)
    ensures Index(ss[..i + 1], lang) ==
      if k in Index(ss[..i], lang) then Index(ss[..i], lang) else Index(ss[..i], lang)[k := ss[i]]
  {
    assert ss[..i + 1][..i] == ss[..i];
  }

  /** One more station, not filed at all: nothing changes. */
  lemma IndexSkip(ss: seq<Station>, i: nat, lang: Language)
    requires i < |ss| && KeyOf(lang, ss[i]) == None
    ensures Index(ss[..i + 1], lang) == Index(ss[..i], lang)
  {
    assert ss[..i + 1][..i] == ss[..i];
  }

  /** The building loop: one pass, first write wins in every map, and the
      abbreviation map only visited for a truthy abbreviation. */
  method BuildGuessMaps(stations: seq<Station>) returns (maps: GuessMaps)
    ensures maps == Indexes(stations)
  {
    var english, pinyin, chinese, abbreviation := map[], map[], map[], map[];
    for i := 0 to |stations|
      invariant english == Index(stations[..i], English)
      invariant pinyin == Index(stations[..i], Pinyin)
      invariant chinese == Index(stations[..i], Chinese)
      invariant abbreviation == Index(stations[..i], Abbreviation)
    {
      var s := stations[i];
      var normalizedEnglish := Normalize(s.english);
      IndexStep(stations, i, English, normalizedEnglish);
      if normalizedEnglish !in english {
        english := english[normalizedEnglish := s];
      }
      var normalizedPinyin := Normalize(s.pinyin);
      IndexStep(stations, i, Pinyin, normalizedPinyin);
      if normalizedPinyin !in pinyin {
        pinyin := pinyin[normalizedPinyin := s];
      }
      var normalizedChinese := NormalizeChinese(s.chinese);
      IndexStep(stations, i, Chinese, normalizedChinese);
      if normalizedChinese !in chinese {
        chinese := chinese[normalizedChinese := s];
      }
      if s.abbreviation.Some? && s.abbreviation.value != "" {
        var normalizedAbbr := Normalize(s.abbreviation.value);
        IndexStep(stations, i, Abbreviation, normalizedAbbr);
        if normalizedAbbr !in abbreviation {
          abbreviation := abbreviation[normalizedAbbr := s];
        }
      } else {
        IndexSkip(stations, i, Abbreviation);
      }
    }
    assert stations[..|stations|] == stations;
    maps := GuessMaps(english, pinyin, chinese, abbreviation);
  }

  /** A submitted answer: normalised as the language requires and looked up
      in that language's map. */
  function Lookup(maps: GuessMaps, lang: Language, input: string): Option<Station> {
    var key := if lang == Chinese then NormalizeChinese(input) else Normalize(input);
    if key in maps.For(lang) then Some(maps.For(lang)[key]) else None
  }

  // ---------------------------------------------------------------------
  // Properties

  /** FirstFiled finds a station filed under `key` with none before it,
      and finds nothing only when no station is filed under `key`. */
  lemma FirstFiledMeans(ss: seq<Station>, lang: Language, key: string)
    ensures var r := FirstFiled(ss, lang, key);
      r.Some? ==> (KeyOf(lang, ss[r.value]) == Some(key)
        && forall j :: 0 <= j < r.value ==> KeyOf(lang, ss[j]) != Some(key))
    ensures FirstFiled(ss, lang, key).None? <==> forall j :: 0 <= j < |ss| ==> KeyOf(lang, ss[j]) != Some(key)
  {
    var keys := Keys(ss, lang);
    var r := FirstFiled(ss, lang, key);
    if r.Some? {
      forall j | 0 <= j < r.value ensures KeyOf(lang, ss[j]) != Some(key) {
        assert keys[..r.value][j] == keys[j];
      }
    } else {
      forall j | 0 <= j < |ss| ensures KeyOf(lang, ss[j]) != Some(key) {
        assert keys[j] == KeyOf(lang, ss[j]);
      }
    }
    if forall j :: 0 <= j < |ss| ==> KeyOf(lang, ss[j]) != Some(key) {
      if r.Some? {
        assert keys[r.value] == Some(key);
      }
    }
  }

  /** First write wins: a key is in the map exactly when some station is
      filed under it, and it holds the first such station. */
  lemma {:induction false} IndexIsFirstFiled(ss: seq<Station>, lang: Language, key: string)
    ensures key in Index(ss, lang) <==> FirstFiled(ss, lang, key).Some?
    ensures key in Index(ss, lang) ==> Index(ss, lang)[key] == ss[FirstFiled(ss, lang, key).value]
  {
    if ss != [] {
      var n := |ss| - 1;
      IndexIsFirstFiled(ss[..n], lang, key);
      KeysSnoc(ss, lang);
      var keys := Keys(ss, lang);
      if Some(key) in keys[..n] {
        FoundEarlier(ss, lang, key);
      } else {
        FoundLast(ss, lang, key);
      }
    }
  }

  /** The key is taken by one of the earlier stations: the last one changes
      nothing for it. */
  lemma FoundEarlier(ss: seq<Station>, lang: Language, key: string)
    requires ss != [] && Some(key) in Keys(ss, lang)[..|ss| - 1]
    requires Keys(ss, lang)[..|ss| - 1] == Keys(ss[..|ss| - 1], lang)
    requires var p := ss[..|ss| - 1];
      key in Index(p, lang) && Index(p, lang)[key] == p[FirstFiled(p, lang, key).value]
    ensures key in Index(ss, lang) && FirstFiled(ss, lang, key).Some?
    ensures Index(ss, lang)[key] == ss[FirstFiled(ss, lang, key).value]
  {
    var n := |ss| - 1;
    var keys := Keys(ss, lang);
    FirstIndexInPrefix(keys, n, Some(key));
    assert ss[..n][FirstIndex(keys, Some(key))] == ss[FirstIndex(keys, Some(key))];
  }

  /** No earlier station has the key: it is in the map exactly when the
      last station is filed under it. */
  lemma FoundLast(ss: seq<Station>, lang: Language, key: string)
    requires ss != [] && Some(key) !in Keys(ss, lang)[..|ss| - 1]
    requires Keys(ss, lang)[..|ss| - 1] == Keys(ss[..|ss| - 1], lang)
    requires Keys(ss, lang) == Keys(ss[..|ss| - 1], lang) + [KeyOf(lang, ss[|ss| - 1])]
    requires key !in Index(ss[..|ss| - 1], lang)
    ensures key in Index(ss, lang) <==> FirstFiled(ss, lang, key).Some?
    ensures key in Index(ss, lang) ==> Index(ss, lang)[key] == ss[FirstFiled(ss, lang, key).value]
  {
    var n := |ss| - 1;
    var keys := Keys(ss, lang);
    if keys[n] == Some(key) {
      FirstIndexUnique(keys, Some(key), n);
    }
  }

  lemma KeysSnoc(ss: seq<Station>, lang: Language)
    requires ss != []
    ensures Keys(ss, lang)[..|ss| - 1] == Keys(ss[..|ss| - 1], lang)
    ensures Keys(ss, lang) == Keys(ss[..|ss| - 1], lang) + [KeyOf(lang, ss[|ss| - 1])]
  {
  }

  /** Every entry of a map is a station filed under that entry's key. */
  lemma {:induction false} IndexFiled(ss: seq<Station>, lang: Language, k: string)
    requires k in Index(ss, lang)
    ensures Index(ss, lang)[k] in ss && KeyOf(lang, Index(ss, lang)[k]) == Some(k)
  {
    var n := |ss| - 1;
    if k in Index(ss[..n], lang) {
      IndexFiled(ss[..n], lang, k);
    }
  }

  /** What a submission finds when the maps were built from `stations`:
      the first station, in list order, whose normalised answer in the
      chosen language equals the normalised input; nothing if there is
      none. */
  lemma LookupFindsFirst(stations: seq<Station>, lang: Language, input: string)
    ensures var key := if lang == Chinese then NormalizeChinese(input) else Normalize(input);
      var f := FirstFiled(stations, lang, key);
      Lookup(Indexes(stations), lang, input) == if f.Some? then Some(stations[f.value]) else None
  {
    var key := if lang == Chinese then NormalizeChinese(input) else Normalize(input);
    assert Indexes(stations).For(lang) == Index(stations, lang);
    IndexIsFirstFiled(stations, lang, key);
  }

  /** A station with a missing or empty abbreviation is never the answer
      to an abbreviation guess. */
  lemma AbbreviationNeedsOne(stations: seq<Station>, input: string)
    ensures Lookup(Indexes(stations), Abbreviation, input).Some? ==>
      HasAbbreviation(Lookup(Indexes(stations), Abbreviation, input).value)
  {
    var key := Normalize(input);
    if key in Index(stations, Abbreviation) {
      IndexFiled(stations, Abbreviation, key);
    }
  }

  /** An answer found for a guess is always one of the stations. */
  lemma LookupInStations(stations: seq<Station>, lang: Language, input: string)
    ensures Lookup(Indexes(stations), lang, input).Some? ==>
      Lookup(Indexes(stations), lang, input).value in stations
  {
    var key := if lang == Chinese then NormalizeChinese(input) else Normalize(input);
    assert Indexes(stations).For(lang) == Index(stations, lang);
    if key in Index(stations, lang) {
      IndexFiled(stations, lang, key);
    }
  }

  /** Capitals, hyphens and extra spaces make no difference to an English
      guess: "JURONG-EAST" and "Jurong   East" find what "Jurong East"
      finds. */
  lemma JurongEastSpellings(maps: GuessMaps, s: string, t: string, w: string)
    requires s == "Jurong East" && t == "JURONG-EAST" && w == "Jurong   East"
    ensures Lookup(maps, English, t) == Lookup(maps, English, s)
    ensures Lookup(maps, English, w) == Lookup(maps, English, s)
  {
    JurongEastHyphenated(s, t);
    JurongEastWideSpaced(s, w);
  }
}
