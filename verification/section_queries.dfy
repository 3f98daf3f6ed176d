/** The read-only questions the section aggregate asks of its list of
    sections: which section starts or ends at a station, whether a station
    is the top (start) or bottom (end) of the line, and whether a new
    section may be inserted at all. Also the list primitives the mutators
    rely on: removing the first equal element and summing distances. */
module SectionQueries {
  import opened Subway

  /** The first section that starts at `station`, if any. */
  function FindByUpStation(ss: seq<Section>, station: Station): (r: Option<Section>)
    ensures r.Some? ==> r.value in ss && r.value.up == station
    ensures r.None? <==> forall s :: s in ss ==> s.up != station
  {
    if ss == [] then None
    else if ss[0].up == station then Some(ss[0])
    else FindByUpStation(ss[1..], station)
  }

  /** The first section that ends at `station`, if any. */
  function FindByDownStation(ss: seq<Section>, station: Station): (r: Option<Section>)
    ensures r.Some? ==> r.value in ss && r.value.down == station
    ensures r.None? <==> forall s :: s in ss ==> s.down != station
  {
    if ss == [] then None
    else if ss[0].down == station then Some(ss[0])
    else FindByDownStation(ss[1..], station)
  }

  predicate IsStationInUpStations(ss: seq<Section>, station: Station)
  {
    FindByUpStation(ss, station).Some?
  }

  predicate IsStationInDownStations(ss: seq<Section>, station: Station)
  {
    FindByDownStation(ss, station).Some?
  }

  /** Some section starts at `station` and none ends there. */
  predicate IsTopStation(ss: seq<Section>, station: Station)
  {
    !IsStationInDownStations(ss, station) && IsStationInUpStations(ss, station)
  }

  /** Some section ends at `station` and none starts there. */
  predicate IsBottomStation(ss: seq<Section>, station: Station)
  {
    !IsStationInUpStations(ss, station) && IsStationInDownStations(ss, station)
  }

  predicate ShouldInsertAtTop(ss: seq<Section>, newSection: Section)
  {
    IsTopStation(ss, newSection.down) && !IsStationInDownStations(ss, newSection.down)
  }

  predicate ShouldInsertAtBottom(ss: seq<Section>, newSection: Section)
  {
    IsBottomStation(ss, newSection.up) && !IsStationInUpStations(ss, newSection.up)
  }

  /** `station` is an endpoint (up or down) of some section. */
  predicate IsStationOnLine(ss: seq<Section>, station: Station)
  {
    exists s :: s in ss && (s.up == station || s.down == station)
  }

  /** The check run before a non-empty line accepts a new section: exactly one
      of its two stations must already be on the line. */
  function ValidateSectionToInsert(ss: seq<Section>, newSection: Section): (r: Option<Error>)
    ensures r.None? <==> IsStationOnLine(ss, newSection.up) != IsStationOnLine(ss, newSection.down)
    ensures r.Some? ==> r.value == InvalidRequest
  {
    var existsUpStation := IsStationOnLine(ss, newSection.up);
    var existsDownStation := IsStationOnLine(ss, newSection.down);
    if !(existsUpStation || existsDownStation) then Some(InvalidRequest)
    else if existsUpStation && existsDownStation then Some(InvalidRequest)
    else None
  }

  /** The check run before a station is deleted: the line must hold at least two sections. */
  function ValidateSectionToDelete(ss: seq<Section>): (r: Option<Error>)
    ensures r.None? <==> |ss| >= 2
    ensures r.Some? ==> r.value == InvalidRequest
  {
    if ss == [] then Some(InvalidRequest)
    else if |ss| == 1 then Some(InvalidRequest)
    else None
  }

  /** The list with its first element equal to `x` taken out (`List.remove(Object)`). */
  function RemoveFirst(ss: seq<Section>, x: Section): (r: seq<Section>)
    ensures x in ss ==> |r| == |ss| - 1
    ensures x !in ss ==> r == ss
  {
    if ss == [] then []
    else if ss[0] == x then ss[1..]
    else
      assert x in ss ==> x in ss[1..];
      [ss[0]] + RemoveFirst(ss[1..], x)
  }

  /** Exactly one occurrence of `x` goes, and nothing else. */
  lemma {:induction false} RemoveFirstContents(ss: seq<Section>, x: Section)
    requires x in ss
    ensures multiset(RemoveFirst(ss, x)) == multiset(ss) - multiset{x}
  {
    assert ss == [ss[0]] + ss[1..];
    if ss[0] != x {
      assert x in ss[1..];
      RemoveFirstContents(ss[1..], x);
    }
  }

  /** Removal adds no section. */
  lemma RemoveFirstSubset(ss: seq<Section>, x: Section)
    ensures forall s :: s in RemoveFirst(ss, x) ==> s in ss
  {
    if x in ss {
      RemoveFirstContents(ss, x);
      forall s | s in RemoveFirst(ss, x)
        ensures s in ss
      {
        assert s in multiset(RemoveFirst(ss, x));
      }
    }
  }

  /** The sum of the distances of all sections. */
  function TotalDistance(ss: seq<Section>): int
  {
    if ss == [] then 0 else ss[0].distance + TotalDistance(ss[1..])
  }

  lemma {:induction false} TotalDistanceAppend(a: seq<Section>, b: seq<Section>)
    ensures TotalDistance(a + b) == TotalDistance(a) + TotalDistance(b)
  {
    if a == [] {
      assert a + b == b;
    } else {
      assert (a + b)[1..] == a[1..] + b;
      TotalDistanceAppend(a[1..], b);
    }
  }

  /** Taking a section out of the list takes its distance out of the total. */
  lemma {:induction false} TotalDistanceRemoveFirst(ss: seq<Section>, x: Section)
    requires x in ss
    ensures TotalDistance(RemoveFirst(ss, x)) == TotalDistance(ss) - x.distance
  {
    if ss[0] != x {
      assert x in ss[1..];
      TotalDistanceRemoveFirst(ss[1..], x);
    }
  }
}
