/** The station record shared by the catalog, the guess index, the line
    grouping and the session (src/app/actions.ts:6-13). */
module StationData {

  datatype Option<+T> = None | Some(value: T)

  /** One station entry. `codes` is `mrt_station_codes`: every service code
      sharing this entry's English name once the catalog has been folded. */
  datatype Station = Station(
    id: string,
    english: string,
    pinyin: string,
    chinese: string,
    codes: seq<string>,
    abbreviation: Option<string>)

  /** JavaScript truthiness of the optional `abbreviation` field: present and
      not the empty string. */
  predicate HasAbbreviation(s: Station) {
    s.abbreviation.Some? && s.abbreviation.value != ""
  }

  /** The set of English names occurring in a list of stations. */
  function Names(stations: seq<Station>): set<string> {
    if stations == [] then {}
    else Names(stations[..|stations| - 1]) + {stations[|stations| - 1].english}
  }

  /** Every station's name is among the names. */
  lemma {:induction false} NamesHas(stations: seq<Station>, i: nat)
    requires i < |stations|
    ensures stations[i].english in Names(stations)
  {
    if i < |stations| - 1 {
      NamesHas(stations[..|stations| - 1], i);
    }
  }

  /** A name is among the names exactly when some station carries it. */
  lemma {:induction false} NamesMembers(stations: seq<Station>, x: string)
    ensures x in Names(stations) <==> exists i :: 0 <= i < |stations| && stations[i].english == x
  {
    if stations != [] {
      var n := |stations| - 1;
      NamesMembers(stations[..n], x);
      if exists i :: 0 <= i < |stations| && stations[i].english == x {
        var i :| 0 <= i < |stations| && stations[i].english == x;
        if i < n {
          assert stations[..n][i] == stations[i];
        }
      }
    }
  }

  /** The list of ids, in order. */
  function Ids(stations: seq<Station>): (r: seq<string>)
    ensures |r| == |stations|
    ensures forall i :: 0 <= i < |r| ==> r[i] == stations[i].id
  {
    if stations == [] then [] else Ids(stations[..|stations| - 1]) + [stations[|stations| - 1].id]
  }
}
