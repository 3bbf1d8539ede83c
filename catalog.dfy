/** Folding the raw station records into the game's station list,
    `processStations`, and the station count the win condition uses,
    `totalStations` (src/app/page.tsx:9-42).

    The fold runs in three steps: a loop collects, per English name, the
    duplicate-free list of ids in first-seen order; every record is stamped
    with the list of its name; and the stamped records are passed through a
    JavaScript `Map` keyed by id. Such a map keeps the position at which a
    key was first inserted but the value written last, so each id survives
    once, where it first occurred, carrying its last record. Records with
    different ids and one English name (an interchange such as NS1 and EW24,
    both "Jurong East") all survive. */
module Catalog {
  import opened StationData
  import opened Seqs

  // ---------------------------------------------------------------------
  // Step 1: codes per English name (src/app/page.tsx:10-22)

  /** The ids of the records named `name`, in input order. */
  function IdsNamed(rs: seq<Station>, name: string): (r: seq<string>)
    ensures |r| <= |rs|
  {
    if rs == [] then []
    else
      var n := |rs| - 1;
      IdsNamed(rs[..n], name) + (if rs[n].english == name then [rs[n].id] else [])
  }

  lemma {:induction false} IdsNamedMembers(rs: seq<Station>, name: string, x: string)
    ensures x in IdsNamed(rs, name) <==> exists i :: 0 <= i < |rs| && rs[i].english == name && rs[i].id == x
  {
    if rs != [] {
      var n := |rs| - 1;
      IdsNamedMembers(rs[..n], name, x);
      if exists i :: 0 <= i < |rs| && rs[i].english == name && rs[i].id == x {
        var i :| 0 <= i < |rs| && rs[i].english == name && rs[i].id == x;
        if i < n {
          assert rs[..n][i] == rs[i];
        }
      }
    }
  }

  /** The code list of one English name: every id carried by a record of
      that name, once each, in the order of first appearance. */
  function CodesFor(rs: seq<Station>, name: string): seq<string> {
    Distinct(IdsNamed(rs, name))
  }

  /** The `Map<string, string[]>` the loop builds. */
  function CodeLists(rs: seq<Station>): map<string, seq<string>> {
    map name | name in Names(rs) :: CodesFor(rs, name)
  }

  /** The map holds, for each name among the first `i` records, that
      name's code list over those records. */
  ghost predicate CollectedUpTo(rs: seq<Station>, i: nat, m: map<string, seq<string>>)
    requires i <= |rs|
  {
    m.Keys == Names(rs[..i]) && forall name :: name in m ==> m[name] == CodesFor(rs[..i], name)
  }

  /** The grouping loop over the records. */
  method GroupCodesByName(rs: seq<Station>) returns (m: map<string, seq<string>>)
    ensures m == CodeLists(rs)
  {
    m := map[];
    for i := 0 to |rs|
      invariant CollectedUpTo(rs, i, m)
    {
      m := AddRecord(rs, i, m);
    }
    CollectedAll(rs, m);
  }

  /** One turn of the loop: a fresh list for a name not seen before, and
      the id pushed onto its name's list unless the list already holds it. */
  method AddRecord(rs: seq<Station>, i: nat, m: map<string, seq<string>>) returns (m': map<string, seq<string>>)
    requires i < |rs| && CollectedUpTo(rs, i, m)
    ensures CollectedUpTo(rs, i + 1, m')
  {
    var station := rs[i];
    var name := station.english;
    var codes := if name in m then m[name] else [];
    if station.id !in codes {
      codes := codes + [station.id];
    }
    m' := m[name := codes];
    CollectStep(rs, i, m, m');
  }

  lemma CollectStep(rs: seq<Station>, i: nat, before: map<string, seq<string>>, after: map<string, seq<string>>)
    requires i < |rs| && CollectedUpTo(rs, i, before)
    requires var name, list := rs[i].english, if rs[i].english in before then before[rs[i].english] else [];
      after == before[name := if rs[i].id in list then list else list + [rs[i].id]]
    ensures CollectedUpTo(rs, i + 1, after)
  {
    var name := rs[i].english;
    var list := if name in before then before[name] else [];
    if name !in before {
      IdsNamedAbsent(rs[..i], name);
    }
    CollectStepKeys(rs, i, before, after);
    CollectStepValues(rs, i, list, before, after);
  }

  lemma CollectStepKeys(rs: seq<Station>, i: nat, before: map<string, seq<string>>, after: map<string, seq<string>>)
    requires i < |rs| && before.Keys == Names(rs[..i])
    requires after.Keys == before.Keys + {rs[i].english}
    ensures after.Keys == Names(rs[..i + 1])
  {
    PrefixSnoc(rs, i);
  }

  lemma CollectStepValues(rs: seq<Station>, i: nat, list: seq<string>, before: map<string, seq<string>>, after: map<string, seq<string>>)
    requires i < |rs| && list == CodesFor(rs[..i], rs[i].english)
    requires forall name :: name in before ==> before[name] == CodesFor(rs[..i], name)
    requires after == before[rs[i].english := if rs[i].id in list then list else list + [rs[i].id]]
    ensures forall other :: other in after ==> after[other] == CodesFor(rs[..i + 1], other)
  {
    CollectStepNamed(rs, i, list);
    forall other | other in after && other != rs[i].english
      ensures after[other] == CodesFor(rs[..i + 1], other)
    {
      PrefixOther(rs, i, other);
    }
  }

  lemma PrefixOther(rs: seq<Station>, i: nat, name: string)
    requires i < |rs| && name != rs[i].english
    ensures IdsNamed(rs[..i + 1], name) == IdsNamed(rs[..i], name)
  {
    assert rs[..i + 1][..i] == rs[..i];
  }

  /** The list of the new record's name after the step. */
  lemma CollectStepNamed(rs: seq<Station>, i: nat, list: seq<string>)
    requires i < |rs| && list == CodesFor(rs[..i], rs[i].english)
    ensures (if rs[i].id in list then list else list + [rs[i].id]) == CodesFor(rs[..i + 1], rs[i].english)
  {
    PrefixSnoc(rs, i);
    DistinctSnoc(IdsNamed(rs[..i], rs[i].english), rs[i].id);
  }

  lemma CollectedAll(rs: seq<Station>, m: map<string, seq<string>>)
    requires CollectedUpTo(rs, |rs|, m)
    ensures m == CodeLists(rs)
  {
    assert rs[..|rs|] == rs;
    CodeListsAre(rs, m);
  }

  lemma CodeListsAre(rs: seq<Station>, m: map<string, seq<string>>)
    requires m.Keys == Names(rs)
    requires forall name :: name in m ==> m[name] == CodesFor(rs, name)
    ensures m == CodeLists(rs)
  {
    var c := CodeLists(rs);
    forall name | name in m ensures name in c && m[name] == c[name] {
      CodeListsAt(rs, name);
    }
    CodeListsKeys(rs);
    SameMaps(m, c);
  }

  lemma CodeListsKeys(rs: seq<Station>)
    ensures CodeLists(rs).Keys == Names(rs)
  {
  }

  lemma CodeListsAt(rs: seq<Station>, name: string)
    requires name in Names(rs)
    ensures name in CodeLists(rs) && CodeLists(rs)[name] == CodesFor(rs, name)
  {
  }

  lemma SameMaps<K, V>(a: map<K, V>, b: map<K, V>)
    requires a.Keys == b.Keys
    requires forall k :: k in a ==> a[k] == b[k]
    ensures a == b
  {
  }

  /** What one more record changes: its name joins the names, and its id
      joins the ids of its name and of no other. */
  lemma PrefixSnoc(rs: seq<Station>, i: nat)
    requires i < |rs|
    ensures Names(rs[..i + 1]) == Names(rs[..i]) + {rs[i].english}
    ensures IdsNamed(rs[..i + 1], rs[i].english) == IdsNamed(rs[..i], rs[i].english) + [rs[i].id]
  {
    assert rs[..i + 1][..i] == rs[..i];
    assert rs[..i + 1] == rs[..i] + [rs[i]];
  }

  /** A name no record carries has no ids. */
  lemma {:induction false} IdsNamedAbsent(rs: seq<Station>, name: string)
    requires name !in Names(rs)
    ensures IdsNamed(rs, name) == [] && CodesFor(rs, name) == []
  {
    if rs != [] {
      IdsNamedAbsent(rs[..|rs| - 1], name);
    }
  }

  // ---------------------------------------------------------------------
  // Step 2: stamping (src/app/page.tsx:25-28)

  /** Every record with `mrt_station_codes` replaced by its name's code list
      (or by its own id alone, for a name the map does not hold). */
  function Stamp(rs: seq<Station>, m: map<string, seq<string>>): (r: seq<Station>)
    ensures |r| == |rs|
    ensures forall i :: 0 <= i < |rs| ==>
      r[i] == rs[i].(codes := if rs[i].english in m then m[rs[i].english] else [rs[i].id])
  {
    seq(|rs|, i requires 0 <= i < |rs| =>
      rs[i].(codes := if rs[i].english in m then m[rs[i].english] else [rs[i].id]))
  }

  // ---------------------------------------------------------------------
  // Step 3: the id-keyed Map (src/app/page.tsx:31)

  /** A JavaScript `Map` from ids: the keys in insertion order and the
      current value of each key. */
  datatype JsMap = JsMap(order: seq<string>, entries: map<string, Station>) {

    ghost predicate Valid() {
      NoDup(order) && (forall k :: k in entries <==> k in order)
    }

    /** `Map.prototype.set`: a new key goes to the end, an existing key
        keeps its position and takes the new value. */
    function Set(k: string, v: Station): (r: JsMap)
      requires Valid()
      ensures r.Valid()
      ensures r.entries == entries[k := v]
      ensures r.order == if k in entries then order else order + [k]
    {
      if k in entries then JsMap(order, entries[k := v]) else JsMap(order + [k], entries[k := v])
    }

    /** `Map.prototype.values()`, in key order. */
    function Values(): (r: seq<Station>)
      requires Valid()
      ensures |r| == |order|
      ensures forall i :: 0 <= i < |order| ==> r[i] == entries[order[i]]
    {
      seq(|order|, i requires 0 <= i < |order| => entries[order[i]])
    }
  }

  /** The last record carrying `id`. */
  function LastWithId(ps: seq<Station>, id: string): (r: Station)
    requires id in Ids(ps)
    ensures r.id == id && r in ps
  {
    var n := |ps| - 1;
    if ps[n].id == id then ps[n]
    else
      assert Ids(ps)[..n] == Ids(ps[..n]);
      assert id in Ids(ps[..n]) by {
        var k :| 0 <= k < |Ids(ps)| && Ids(ps)[k] == id;
        assert k < n;
        assert Ids(ps)[..n][k] == id;
      }
      LastWithId(ps[..n], id)
  }

  /** `new Map(ps.map(s => [s.id, s]))`: the keys are the ids in order of
      first occurrence. */
  function FromEntries(ps: seq<Station>): (m: JsMap)
    ensures m.Valid()
    ensures m.order == Distinct(Ids(ps))
    ensures forall k :: k in m.entries ==> m.entries[k].id == k
  {
    if ps == [] then JsMap([], map[])
    else
      var n := |ps| - 1;
      var prev := FromEntries(ps[..n]);
      assert Ids(ps) == Ids(ps[..n]) + [ps[n].id];
      DistinctSnoc(Ids(ps[..n]), ps[n].id);
      prev.Set(ps[n].id, ps[n])
  }

  /** Each id holds its last record. */
  lemma {:induction false} FromEntriesLastWins(ps: seq<Station>, k: string)
    requires k in FromEntries(ps).entries
    ensures k in Ids(ps) && FromEntries(ps).entries[k] == LastWithId(ps, k)
  {
    var n := |ps| - 1;
    assert Ids(ps) == Ids(ps[..n]) + [ps[n].id];
    if ps[n].id != k {
      FromEntriesLastWins(ps[..n], k);
    }
  }

  function DedupById(ps: seq<Station>): seq<Station> {
    FromEntries(ps).Values()
  }

  // ---------------------------------------------------------------------
  // processStations and totalStations

  /** The station list the game is played on. */
  function Processed(rs: seq<Station>): seq<Station> {
    DedupById(Stamp(rs, CodeLists(rs)))
  }

  method ProcessStations(rs: seq<Station>) returns (stations: seq<Station>)
    ensures stations == Processed(rs)
  {
    var codeLists := GroupCodesByName(rs);
    var stamped := Stamp(rs, codeLists);
    stations := FromEntries(stamped).Values();
  }

  /** `new Set(stations.map(s => s.mrt_station_english)).size`: the number
      of distinct English names, never more than the number of stations and
      zero only for an empty list. */
  function TotalStations(stations: seq<Station>): (total: nat)
    ensures total <= |stations|
    ensures total == 0 <==> stations == []
  {
    NamesBound(stations);
    |Names(stations)|
  }

  lemma {:induction false} NamesBound(stations: seq<Station>)
    ensures |Names(stations)| <= |stations|
    ensures stations != [] ==> |Names(stations)| >= 1
  {
    if stations != [] {
      NamesBound(stations[..|stations| - 1]);
    }
  }

  /** What the page shows: the "Could not load stations" card, or the game
      on the processed stations with their distinct-name count. */
  datatype Page = CouldNotLoad | Game(stations: seq<Station>, totalStations: nat)

  function Home(rs: seq<Station>): (page: Page)
    ensures page.CouldNotLoad? <==> rs == []
    ensures page.Game? ==> 1 <= page.totalStations <= |page.stations| <= |rs|
  {
    var stations := Processed(rs);
    ProcessedShape(rs);
    if |stations| > 0 then Game(stations, TotalStations(stations)) else CouldNotLoad
  }

  // ---------------------------------------------------------------------
  // Properties

  lemma StampIds(rs: seq<Station>, m: map<string, seq<string>>)
    ensures Ids(Stamp(rs, m)) == Ids(rs)
  {
  }

  /** The output ids are the input ids, each once, in order of first
      occurrence; so the output is never longer than the input, and empty
      only when the input is. */
  lemma ProcessedShape(rs: seq<Station>)
    ensures Ids(Processed(rs)) == Distinct(Ids(rs))
    ensures NoDup(Ids(Processed(rs)))
    ensures |Processed(rs)| <= |rs|
    ensures |Processed(rs)| == 0 <==> rs == []
  {
    var ps := Stamp(rs, CodeLists(rs));
    StampIds(rs, CodeLists(rs));
    DedupIds(ps);
    if rs != [] {
      DistinctMembers(Ids(rs), Ids(rs)[0]);
    }
  }

  /** The Map's values carry its keys, in key order. */
  lemma DedupIds(ps: seq<Station>)
    ensures Ids(DedupById(ps)) == Distinct(Ids(ps))
  {
    ValuesIds(FromEntries(ps));
  }

  lemma ValuesIds(m: JsMap)
    requires m.Valid() && forall k :: k in m.entries ==> m.entries[k].id == k
    ensures Ids(m.Values()) == m.order
  {
    var v := m.Values();
    forall i | 0 <= i < |v| ensures Ids(v)[i] == m.order[i] {
      assert v[i] == m.entries[m.order[i]];
    }
  }

  /** Ordered by first occurrence: for two output stations, the first
      input record with the earlier one's id comes before the first input
      record with the later one's id. */
  lemma ProcessedFirstSeenOrder(rs: seq<Station>, i: nat, j: nat)
    requires i < j < |Processed(rs)|
    ensures Processed(rs)[i].id in Ids(rs) && Processed(rs)[j].id in Ids(rs)
    ensures FirstIndex(Ids(rs), Processed(rs)[i].id) < FirstIndex(Ids(rs), Processed(rs)[j].id)
  {
    var out := Processed(rs);
    ProcessedShape(rs);
    assert Ids(out)[i] == out[i].id && Ids(out)[j] == out[j].id;
    DistinctFirstSeen(Ids(rs));
  }

  /** The Map holds, at each position, the last record with that
      position's id. */
  lemma DedupKeepsLast(ps: seq<Station>, i: nat) returns (j: nat)
    requires i < |DedupById(ps)|
    ensures j < |ps| && DedupById(ps)[i] == ps[j]
    ensures forall k :: j < k < |ps| ==> ps[k].id != ps[j].id
  {
    var m := FromEntries(ps);
    var id := m.order[i];
    assert DedupById(ps)[i] == m.entries[id];
    FromEntriesLastWins(ps, id);
    j := LastIndex(ps, id);
  }

  /** Stamping with the collected lists gives each record its name's list. */
  lemma StampedCoded(rs: seq<Station>, j: nat)
    requires j < |rs|
    ensures Stamp(rs, CodeLists(rs))[j] == rs[j].(codes := CodesFor(rs, rs[j].english))
  {
    NamesHas(rs, j);
  }

  /** Every output station is the stamped copy of the LAST input record
      with its id: that record and no later one carries the id. */
  lemma ProcessedKeepsLast(rs: seq<Station>, i: nat) returns (j: nat)
    requires i < |Processed(rs)|
    ensures j < |rs| && Processed(rs)[i] == rs[j].(codes := CodesFor(rs, rs[j].english))
    ensures forall k :: j < k < |rs| ==> rs[k].id != rs[j].id
  {
    var ps := Stamp(rs, CodeLists(rs));
    j := DedupKeepsLast(ps, i);
    StampedCoded(rs, j);
    forall k | j < k < |rs| ensures rs[k].id != rs[j].id {
      assert ps[k].id == rs[k].id;
    }
  }

  /** Position of the last record with `id`, which is where LastWithId
      found it. */
  lemma {:induction false} LastIndex(ps: seq<Station>, id: string) returns (j: nat)
    requires id in Ids(ps)
    ensures j < |ps| && ps[j] == LastWithId(ps, id) && ps[j].id == id
    ensures forall k :: j < k < |ps| ==> ps[k].id != id
  {
    var n := |ps| - 1;
    if ps[n].id == id {
      j := n;
    } else {
      assert Ids(ps)[..n] == Ids(ps[..n]);
      assert id in Ids(ps[..n]) by {
        var k :| 0 <= k < |Ids(ps)| && Ids(ps)[k] == id;
        assert Ids(ps)[..n][k] == id;
      }
      j := LastIndex(ps[..n], id);
    }
  }

  /** Every output station carries its English name's code list, and that
      list holds its own id. */
  lemma ProcessedCodes(rs: seq<Station>, i: nat)
    requires i < |Processed(rs)|
    ensures Processed(rs)[i].codes == CodesFor(rs, Processed(rs)[i].english)
    ensures Processed(rs)[i].id in Processed(rs)[i].codes
  {
    var j := ProcessedKeepsLast(rs, i);
    IdsNamedMembers(rs, rs[j].english, rs[j].id);
    DistinctMembers(IdsNamed(rs, rs[j].english), rs[j].id);
  }

  /** Two output stations with one English name carry the identical list. */
  lemma SameNameSameCodes(rs: seq<Station>, i: nat, j: nat)
    requires i < |Processed(rs)| && j < |Processed(rs)|
    requires Processed(rs)[i].english == Processed(rs)[j].english
    ensures Processed(rs)[i].codes == Processed(rs)[j].codes
  {
    ProcessedCodes(rs, i);
    ProcessedCodes(rs, j);
  }

  /** A code list holds exactly the ids of the records with that name, each
      once, in order of first appearance among those records. */
  lemma CodesForSpec(rs: seq<Station>, name: string)
    ensures NoDup(CodesFor(rs, name))
    ensures forall x :: x in CodesFor(rs, name) <==> exists i :: 0 <= i < |rs| && rs[i].english == name && rs[i].id == x
    ensures forall i, j :: 0 <= i < j < |CodesFor(rs, name)| ==>
      FirstIndex(IdsNamed(rs, name), CodesFor(rs, name)[i]) < FirstIndex(IdsNamed(rs, name), CodesFor(rs, name)[j])
  {
    DistinctFirstSeen(IdsNamed(rs, name));
    forall x ensures x in CodesFor(rs, name) <==> exists i :: 0 <= i < |rs| && rs[i].english == name && rs[i].id == x {
      IdsNamedMembers(rs, name, x);
      DistinctMembers(IdsNamed(rs, name), x);
    }
  }

  /** Deduplication is by id only: every input id is still present, so
      records with different ids and one English name all survive. */
  lemma EveryIdSurvives(rs: seq<Station>, j: nat) returns (i: nat)
    requires j < |rs|
    ensures i < |Processed(rs)| && Processed(rs)[i].id == rs[j].id
  {
    ProcessedShape(rs);
    assert Ids(rs)[j] == rs[j].id;
    DistinctMembers(Ids(rs), rs[j].id);
    var out := Processed(rs);
    i :| 0 <= i < |Ids(out)| && Ids(out)[i] == rs[j].id;
  }

  /** When no id repeats, nothing is dropped: the output is the input with
      every record stamped. */
  lemma UniqueIdsKeepEveryRecord(rs: seq<Station>)
    requires NoDup(Ids(rs))
    ensures Processed(rs) == Stamp(rs, CodeLists(rs))
  {
    StampIds(rs, CodeLists(rs));
    DedupOfUniqueIds(Stamp(rs, CodeLists(rs)));
  }

  /** The Map changes nothing when every id occurs once. */
  lemma DedupOfUniqueIds(ps: seq<Station>)
    requires NoDup(Ids(ps))
    ensures DedupById(ps) == ps
  {
    DedupIds(ps);
    DistinctOfNoDup(Ids(ps));
    forall i | 0 <= i < |ps| ensures DedupById(ps)[i] == ps[i] {
      DedupUniqueAt(ps, i);
    }
  }

  lemma DedupUniqueAt(ps: seq<Station>, i: nat)
    requires NoDup(Ids(ps)) && Ids(DedupById(ps)) == Ids(ps) && i < |ps|
    ensures DedupById(ps)[i] == ps[i]
  {
    var j := DedupKeepsLast(ps, i);
    SameIdSamePlace(ps, DedupById(ps), i, j);
  }

  /** A record at position `i` of a list with the same ids as a
      duplicate-free `ps` that equals `ps[j]` is `ps[i]`. */
  lemma SameIdSamePlace(ps: seq<Station>, out: seq<Station>, i: nat, j: nat)
    requires NoDup(Ids(ps)) && Ids(out) == Ids(ps)
    requires i < |out| && j < |ps| && out[i] == ps[j]
    ensures i < |ps| && out[i] == ps[i]
  {
    assert Ids(ps)[j] == ps[j].id;
    assert out[i].id == Ids(out)[i] == Ids(ps)[i];
    NoDupIndex(Ids(ps), i, j);
  }

  /** The distinct-name count of the game's stations never exceeds the
      number of distinct names among the raw records. */
  lemma ProcessedNames(rs: seq<Station>)
    ensures Names(Processed(rs)) <= Names(rs)
    ensures TotalStations(Processed(rs)) <= |Names(rs)|
  {
    var out := Processed(rs);
    forall i | 0 <= i < |out| ensures out[i].english in Names(rs) {
      var j := ProcessedKeepsLast(rs, i);
      NamesHas(rs, j);
    }
    NamesWithin(out, rs);
    SubsetCard(Names(out), Names(rs));
  }

  lemma {:induction false} NamesWithin(a: seq<Station>, b: seq<Station>)
    requires forall i :: 0 <= i < |a| ==> a[i].english in Names(b)
    ensures Names(a) <= Names(b)
  {
    if a != [] {
      var n := |a| - 1;
      assert forall i :: 0 <= i < n ==> a[..n][i] == a[i];
      NamesWithin(a[..n], b);
    }
  }
}
