/** The `Sections` aggregate of one subway line. Its list of sections is
    changed in place by `Insert` and `DeleteStation`, each of which then
    hands back a fresh aggregate holding a copy of the new list (an insert
    into an empty line leaves the receiver untouched and hands back a
    one-section aggregate). Every method is proved to compute what the
    matching definition in module SectionsSpec describes. */
module Sections {
  import opened Subway
  import opened SectionQueries
  import opened SectionsSpec

  class Sections {
    var sections: seq<Section>

    constructor (sections: seq<Section>)
      ensures this.sections == sections
    {
      this.sections := sections;
    }

    /** Adds `newSection` to the line; see `SectionsSpec.Inserted` for the cases. */
    method Insert(newSection: Section) returns (r: Result<Sections>)
      modifies this
      ensures r.Ok? <==> Inserted(old(sections), newSection).Ok?
      ensures r.Err? ==> r.error == Inserted(old(sections), newSection).error && sections == old(sections)
      ensures r.Ok? ==> fresh(r.value) && r.value.sections == Inserted(old(sections), newSection).value
      ensures old(sections) == [] ==> sections == old(sections)
      ensures old(sections) != [] && r.Ok? ==> sections == r.value.sections
    {
      if sections == [] {
        var single := new Sections([newSection]);
        return Ok(single);
      }

      if ValidateSectionToInsert(sections, newSection).Some? {
        return Err(InvalidRequest);
      }

      if ShouldInsertAtTop(sections, newSection) {
        var s := InsertAtTop(newSection);
        return Ok(s);
      }

      if ShouldInsertAtBottom(sections, newSection) {
        var s := InsertAtBottom(newSection);
        return Ok(s);
      }

      if IsStationInUpStations(sections, newSection.up) {
        r := InsertAtUpStationOfMiddle(newSection);
        return;
      }

      DownSplitReachable(sections, newSection);
      r := InsertAtDownStationOfMiddle(newSection);
    }

    method InsertAtTop(newSection: Section) returns (r: Sections)
      modifies this
      ensures sections == [newSection] + old(sections)
      ensures fresh(r) && r.sections == sections
    {
      sections := [newSection] + sections;
      r := new Sections(sections);
    }

    method InsertAtBottom(newSection: Section) returns (r: Sections)
      requires sections != []
      modifies this
      ensures sections == InsertedAtBottom(old(sections), newSection)
      ensures fresh(r) && r.sections == sections
    {
      var at := |sections| - 1;
      sections := sections[..at] + [newSection] + sections[at..];
      r := new Sections(sections);
    }

    method InsertAtUpStationOfMiddle(newSection: Section) returns (r: Result<Sections>)
      requires IsStationInUpStations(sections, newSection.up)
      modifies this
      ensures var oldSection := FindByUpStation(old(sections), newSection.up).value;
        if oldSection.distance <= newSection.distance then
          r == Err(InvalidRequest) && sections == old(sections)
        else
          r.Ok? && fresh(r.value) && r.value.sections == sections &&
          sections == RemoveFirst(old(sections), oldSection) + [UpSplitRemainder(oldSection, newSection), newSection]
    {
      var oldSection := FindByUpStation(sections, newSection.up).value;
      if oldSection.distance <= newSection.distance {
        return Err(InvalidRequest);
      }
      var distance := oldSection.distance - newSection.distance;
      var updated := oldSection.UpdateUpStation(newSection.down).UpdateDistance(distance);
      var s := InsertAtMiddle(oldSection, updated, newSection);
      r := Ok(s);
    }

    method InsertAtDownStationOfMiddle(newSection: Section) returns (r: Result<Sections>)
      requires IsStationInDownStations(sections, newSection.down)
      modifies this
      ensures var oldSection := FindByDownStation(old(sections), newSection.down).value;
        if oldSection.distance <= newSection.distance then
          r == Err(InvalidRequest) && sections == old(sections)
        else
          r.Ok? && fresh(r.value) && r.value.sections == sections &&
          sections == RemoveFirst(old(sections), oldSection) + [DownSplitRemainder(oldSection, newSection), newSection]
    {
      var oldSection := FindByDownStation(sections, newSection.down).value;
      if oldSection.distance <= newSection.distance {
        return Err(InvalidRequest);
      }
      var distance := oldSection.distance - newSection.distance;
      var updated := oldSection.UpdateDownStation(newSection.up).UpdateDistance(distance);
      var s := InsertAtMiddle(oldSection, updated, newSection);
      r := Ok(s);
    }

    /** Replaces `oldSection` by `updated` (moved to the end) and appends `newSection`. */
    method InsertAtMiddle(oldSection: Section, updated: Section, newSection: Section) returns (r: Sections)
      modifies this
      ensures sections == RemoveFirst(old(sections), oldSection) + [updated, newSection]
      ensures fresh(r) && r.sections == sections
    {
      sections := RemoveFirst(sections, oldSection);
      sections := sections + [updated];
      sections := sections + [newSection];
      r := new Sections(sections);
    }

    /** Removes `station` from the line; see `SectionsSpec.Deleted` for the cases. */
    method DeleteStation(station: Station) returns (r: Result<Sections>)
      modifies this
      ensures r.Ok? <==> Deleted(old(sections), station).Ok?
      ensures r.Err? ==> r.error == Deleted(old(sections), station).error && sections == old(sections)
      ensures r.Ok? ==> fresh(r.value) && sections == r.value.sections
      ensures r.Ok? ==> sections == Deleted(old(sections), station).value
    {
      var invalid := ValidateSectionToDelete(sections);
      if invalid.Some? {
        return Err(invalid.value);
      }

      if IsTopStation(sections, station) || IsBottomStation(sections, station) {
        r := DeleteStationWithoutUpdate(station);
        return;
      }

      r := DeleteStationWithUpdate(station);
    }

    /** Takes out the first section starting at `station`; for a bottom
        station there is none, so this fails (see module CorrectedDelete). */
    method DeleteStationWithoutUpdate(station: Station) returns (r: Result<Sections>)
      modifies this
      ensures FindByUpStation(old(sections), station).None? ==>
        r == Err(EntityNotFound) && sections == old(sections)
      ensures FindByUpStation(old(sections), station).Some? ==>
        r.Ok? && fresh(r.value) && r.value.sections == sections &&
        sections == RemoveFirst(old(sections), FindByUpStation(old(sections), station).value)
    {
      var found := FindByUpStation(sections, station);
      if found.None? {
        return Err(EntityNotFound);
      }
      sections := RemoveFirst(sections, found.value);
      var s := new Sections(sections);
      r := Ok(s);
    }

    method DeleteStationWithUpdate(station: Station) returns (r: Result<Sections>)
      modifies this
      ensures FindByUpStation(old(sections), station).None? || FindByDownStation(old(sections), station).None? ==>
        r == Err(EntityNotFound) && sections == old(sections)
      ensures FindByUpStation(old(sections), station).Some? && FindByDownStation(old(sections), station).Some? ==>
        var below := FindByUpStation(old(sections), station).value;
        var above := FindByDownStation(old(sections), station).value;
        r.Ok? && fresh(r.value) && r.value.sections == sections &&
        sections == RemoveFirst(RemoveFirst(old(sections), below), above) + [Merged(above, below)]
    {
      var byUp := FindByUpStation(sections, station);
      if byUp.None? {
        return Err(EntityNotFound);
      }
      var byDown := FindByDownStation(sections, station);
      if byDown.None? {
        return Err(EntityNotFound);
      }
      var below, above := byUp.value, byDown.value;
      ghost var before := sections;

      sections := RemoveFirst(sections, below);
      sections := RemoveFirst(sections, above);

      var distance := below.distance + above.distance;
      var updated := above.UpdateDownStation(below.down).UpdateDistance(distance);
      assert updated == Merged(above, below);
      sections := sections + [updated];
      assert sections == RemoveFirst(RemoveFirst(before, below), above) + [Merged(above, below)];
      var s := new Sections(sections);
      r := Ok(s);
    }

    /** The stations of the line from top to bottom: an empty list for an empty
        line; otherwise a top station (an up-station that is nobody's
        down-station) followed by as many steps along the up -> down map as
        the map has entries; `EntityNotFound` when there is no top station. */
    method GetSortedStations() returns (r: Result<seq<Option<Station>>>)
      ensures sections == [] ==> r == Ok([])
      ensures sections != [] && TopStations(SectionMap(sections)) == {} ==> r == Err(EntityNotFound)
      ensures sections != [] && TopStations(SectionMap(sections)) != {} ==>
        r.Ok? && (exists top :: top in TopStations(SectionMap(sections)) &&
                   r.value == Walk(SectionMap(sections), top, |SectionMap(sections)|))
    {
      if sections == [] {
        return Ok([]);
      }

      var sectionMap := MakeSectionMap();
      var found := FindTopStation(sectionMap);
      if found.Err? {
        return Err(found.error);
      }
      var top := found.value;
      var station := Some(top);

      var sortedStations := [station];
      var size := |sectionMap|;
      for i := 0 to size
        invariant sortedStations == Walk(sectionMap, top, i)
        invariant station == sortedStations[i]
      {
        station := Lookup(sectionMap, station);
        sortedStations := sortedStations + [station];
      }
      r := Ok(sortedStations);
    }

    /** Fills the up -> down map from the sections in list order. */
    method MakeSectionMap() returns (m: map<Station, Station>)
      ensures m == SectionMap(sections)
    {
      m := map[];
      for i := 0 to |sections|
        invariant m == SectionMap(sections[..i])
      {
        assert sections[..i + 1][..i] == sections[..i];
        m := m[sections[i].up := sections[i].down];
      }
      assert sections[..|sections|] == sections;
    }

    /** Scans the keys, in no particular order, for one that is not a value. */
    method FindTopStation(sectionMap: map<Station, Station>) returns (r: Result<Station>)
      ensures r.Ok? ==> r.value in TopStations(sectionMap)
      ensures r.Err? <==> TopStations(sectionMap) == {}
      ensures r.Err? ==> r.error == EntityNotFound
    {
      var keys := sectionMap.Keys;
      while keys != {}
        invariant keys <= sectionMap.Keys
        invariant forall k :: k in sectionMap.Keys - keys ==> k in sectionMap.Values
        decreases keys
      {
        var upStation :| upStation in keys;
        if upStation !in sectionMap.Values {
          return Ok(upStation);
        }
        keys := keys - {upStation};
      }
      r := Err(EntityNotFound);
    }
  }
}
