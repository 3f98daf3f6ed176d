/** Value-level definitions of what the aggregate's operations compute:
    the section list after an insert or a delete (or the error raised), the
    up -> down station map, and the walk over that map that lists the
    stations of the line. The class in module Sections is proved to follow
    these definitions; module Paths proves what they mean on a line that is
    one simple path. */
module SectionsSpec {
  import opened Subway
  import opened SectionQueries

  /** The section that replaces `oldSection` when `newSection` splits it at its up-station. */
  function UpSplitRemainder(oldSection: Section, newSection: Section): Section
  {
    oldSection.UpdateUpStation(newSection.down).UpdateDistance(oldSection.distance - newSection.distance)
  }

  /** The section that replaces `oldSection` when `newSection` splits it at its down-station. */
  function DownSplitRemainder(oldSection: Section, newSection: Section): Section
  {
    oldSection.UpdateDownStation(newSection.up).UpdateDistance(oldSection.distance - newSection.distance)
  }

  /** The section that replaces the two sections around a deleted interior
      station: `above` ends at it and `below` starts at it. */
  function Merged(above: Section, below: Section): Section
  {
    above.UpdateDownStation(below.down).UpdateDistance(below.distance + above.distance)
  }

  /** The list `insertAtBottom` builds: the new section at index `|ss| - 1`. */
  function InsertedAtBottom(ss: seq<Section>, newSection: Section): seq<Section>
    requires ss != []
  {
    ss[..|ss| - 1] + [newSection] + ss[|ss| - 1..]
  }

  /** The section list after `insert(newSection)`, following the source's case order:
      empty line, new top, new bottom, split at an up-station, split at a down-station. */
  function Inserted(ss: seq<Section>, newSection: Section): Result<seq<Section>>
  {
    if ss == [] then Ok([newSection])
    else if ValidateSectionToInsert(ss, newSection).Some? then Err(InvalidRequest)
    else if ShouldInsertAtTop(ss, newSection) then Ok([newSection] + ss)
    else if ShouldInsertAtBottom(ss, newSection) then Ok(InsertedAtBottom(ss, newSection))
    else if IsStationInUpStations(ss, newSection.up) then
      var oldSection := FindByUpStation(ss, newSection.up).value;
      if oldSection.distance <= newSection.distance then Err(InvalidRequest)
      else Ok(RemoveFirst(ss, oldSection) + [UpSplitRemainder(oldSection, newSection), newSection])
    else
      DownSplitReachable(ss, newSection);
      var oldSection := FindByDownStation(ss, newSection.down).value;
      if oldSection.distance <= newSection.distance then Err(InvalidRequest)
      else Ok(RemoveFirst(ss, oldSection) + [DownSplitRemainder(oldSection, newSection), newSection])
  }

  /** When none of the earlier cases of `insert` applies, some section ends at
      the new down-station, so the lookup of the last case always succeeds. */
  lemma DownSplitReachable(ss: seq<Section>, newSection: Section)
    requires ss != [] && ValidateSectionToInsert(ss, newSection).None?
    requires !ShouldInsertAtTop(ss, newSection) && !ShouldInsertAtBottom(ss, newSection)
    requires !IsStationInUpStations(ss, newSection.up)
    ensures IsStationInDownStations(ss, newSection.down)
  {
  }

  /** The section list after `deleteStation(station)`, as the source computes it. */
  function Deleted(ss: seq<Section>, station: Station): Result<seq<Section>>
  {
    if ValidateSectionToDelete(ss).Some? then Err(InvalidRequest)
    else if IsTopStation(ss, station) || IsBottomStation(ss, station) then
      match FindByUpStation(ss, station)
      case None => Err(EntityNotFound)
      case Some(s) => Ok(RemoveFirst(ss, s))
    else
      match FindByUpStation(ss, station)
      case None => Err(EntityNotFound)
      case Some(below) =>
        match FindByDownStation(ss, station)
        case None => Err(EntityNotFound)
        case Some(above) => Ok(RemoveFirst(RemoveFirst(ss, below), above) + [Merged(above, below)])
  }

  /** The map `makeSectionMap` fills: each up-station to its down-station,
      a later section overwriting an earlier one with the same up-station. */
  function SectionMap(ss: seq<Section>): (m: map<Station, Station>)
    ensures m.Keys == set s | s in ss :: s.up
    ensures forall k :: k in m ==> HasEdge(ss, k, m[k])
  {
    if ss == [] then map[]
    else
      var last := ss[|ss| - 1];
      var m := SectionMap(ss[..|ss| - 1]);
      assert ss == ss[..|ss| - 1] + [last];
      m[last.up := last.down]
  }

  /** Some section runs from `a` to `b`. */
  predicate HasEdge(ss: seq<Section>, a: Station, b: Station)
  {
    exists s :: s in ss && s.up == a && s.down == b
  }

  /** The up-stations that are nobody's down-station: candidates for the top of the line. */
  function TopStations(m: map<Station, Station>): set<Station>
  {
    set k | k in m.Keys && k !in m.Values
  }

  /** `HashMap.get`: the down-station of `station`, or null (None) when it has none
      or when `station` is itself null. */
  function Lookup(m: map<Station, Station>, station: Option<Station>): Option<Station>
  {
    if station.Some? && station.value in m then Some(m[station.value]) else None
  }

  /** The list `getSortedStations` builds: `start` followed by `n` steps along the map. */
  function Walk(m: map<Station, Station>, start: Station, n: nat): (w: seq<Option<Station>>)
    ensures |w| == n + 1 && w[0] == Some(start)
    ensures forall i {:trigger Lookup(m, w[i])} :: 0 <= i < n ==> w[i + 1] == Lookup(m, w[i])
  {
    if n == 0 then [Some(start)]
    else
      var w := Walk(m, start, n - 1);
      w + [Lookup(m, w[n - 1])]
  }
}
