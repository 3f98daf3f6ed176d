/** The cases of `insert` on any non-empty section list, path or not:
    which case applies, what list results, and what happens to the number of
    sections and to the total distance. */
module InsertCases {
  import opened Subway
  import opened SectionQueries
  import opened SectionsSpec

  /** The list of a split: `oldSection` taken out, its remainder and the new section added. */
  lemma SplitContents(ss: seq<Section>, oldSection: Section, remainder: Section, newSection: Section)
    requires oldSection in ss
    requires remainder.distance + newSection.distance == oldSection.distance
    ensures var r := RemoveFirst(ss, oldSection) + [remainder, newSection];
      && |r| == |ss| + 1
      && multiset(r) == multiset(ss) - multiset{oldSection} + multiset{remainder, newSection}
      && TotalDistance(r) == TotalDistance(ss)
  {
    RemoveFirstContents(ss, oldSection);
    TotalDistanceAppend(RemoveFirst(ss, oldSection), [remainder, newSection]);
    TotalDistanceRemoveFirst(ss, oldSection);
    assert [remainder, newSection] == [remainder] + [newSection];
    TotalDistanceAppend([remainder], [newSection]);
  }

  /** A new section whose stations are both known, or both unknown, is refused. */
  lemma InsertRejectsUnknownOrKnown(ss: seq<Section>, newSection: Section)
    requires ss != []
    requires IsStationOnLine(ss, newSection.up) == IsStationOnLine(ss, newSection.down)
    ensures Inserted(ss, newSection) == Err(InvalidRequest)
  {
  }

  /** Ending at the current top station, from an unknown station: the new
      section goes in front and nothing else changes. */
  lemma InsertAtTopCase(ss: seq<Section>, newSection: Section)
    requires ss != [] && IsTopStation(ss, newSection.down)
    requires !IsStationOnLine(ss, newSection.up)
    ensures Inserted(ss, newSection) == Ok([newSection] + ss)
    ensures var r := Inserted(ss, newSection).value;
      && |r| == |ss| + 1
      && TotalDistance(r) == TotalDistance(ss) + newSection.distance
  {
    assert IsStationOnLine(ss, newSection.down);
    assert ([newSection] + ss)[1..] == ss;
  }

  /** Starting at the current bottom station, to an unknown station: the new
      section goes in at index `|ss| - 1`, before the last one, and nothing
      else changes. */
  lemma InsertAtBottomCase(ss: seq<Section>, newSection: Section)
    requires ss != [] && IsBottomStation(ss, newSection.up)
    requires !IsStationOnLine(ss, newSection.down)
    ensures Inserted(ss, newSection) == Ok(InsertedAtBottom(ss, newSection))
    ensures var r := InsertedAtBottom(ss, newSection);
      && |r| == |ss| + 1
      && r[..|ss| - 1] == ss[..|ss| - 1] && r[|ss| - 1] == newSection && r[|ss|] == ss[|ss| - 1]
      && multiset(r) == multiset(ss) + multiset{newSection}
      && TotalDistance(r) == TotalDistance(ss) + newSection.distance
  {
    var k := |ss| - 1;
    var r := InsertedAtBottom(ss, newSection);
    assert IsStationOnLine(ss, newSection.up) by {
      var s := FindByDownStation(ss, newSection.up).value;
      assert s in ss && s.down == newSection.up;
    }
    assert !ShouldInsertAtTop(ss, newSection);
    assert ss == ss[..k] + ss[k..];
    TotalDistanceAppend(ss[..k] + [newSection], ss[k..]);
    TotalDistanceAppend(ss[..k], [newSection]);
    TotalDistanceAppend(ss[..k], ss[k..]);
    assert [newSection][1..] == [];
  }

  /** Starting at some section's up-station, to an unknown station: that
      section is cut at the new station and keeps the rest of its distance,
      which must stay positive; the total distance does not change. */
  lemma InsertSplitUpCase(ss: seq<Section>, newSection: Section)
    requires ss != [] && IsStationInUpStations(ss, newSection.up)
    requires !IsStationOnLine(ss, newSection.down)
    ensures var oldSection := FindByUpStation(ss, newSection.up).value;
      oldSection.distance <= newSection.distance ==> Inserted(ss, newSection) == Err(InvalidRequest)
    ensures var oldSection := FindByUpStation(ss, newSection.up).value;
      var remainder := UpSplitRemainder(oldSection, newSection);
      var r := RemoveFirst(ss, oldSection) + [remainder, newSection];
      oldSection.distance > newSection.distance ==>
        && Inserted(ss, newSection) == Ok(r)
        && remainder == oldSection.(up := newSection.down, distance := oldSection.distance - newSection.distance)
        && |r| == |ss| + 1
        && multiset(r) == multiset(ss) - multiset{oldSection} + multiset{remainder, newSection}
        && TotalDistance(r) == TotalDistance(ss)
  {
    var oldSection := FindByUpStation(ss, newSection.up).value;
    assert IsStationOnLine(ss, newSection.up) by {
      assert oldSection in ss && oldSection.up == newSection.up;
    }
    assert !ShouldInsertAtTop(ss, newSection);
    if oldSection.distance > newSection.distance {
      SplitContents(ss, oldSection, UpSplitRemainder(oldSection, newSection), newSection);
    }
  }

  /** Ending at some section's down-station, from an unknown station: that
      section is cut at the new station and keeps the rest of its distance,
      which must stay positive; the total distance does not change. */
  lemma InsertSplitDownCase(ss: seq<Section>, newSection: Section)
    requires ss != [] && IsStationInDownStations(ss, newSection.down)
    requires !IsStationOnLine(ss, newSection.up)
    ensures var oldSection := FindByDownStation(ss, newSection.down).value;
      oldSection.distance <= newSection.distance ==> Inserted(ss, newSection) == Err(InvalidRequest)
    ensures var oldSection := FindByDownStation(ss, newSection.down).value;
      var remainder := DownSplitRemainder(oldSection, newSection);
      var r := RemoveFirst(ss, oldSection) + [remainder, newSection];
      oldSection.distance > newSection.distance ==>
        && Inserted(ss, newSection) == Ok(r)
        && remainder == oldSection.(down := newSection.up, distance := oldSection.distance - newSection.distance)
        && |r| == |ss| + 1
        && multiset(r) == multiset(ss) - multiset{oldSection} + multiset{remainder, newSection}
        && TotalDistance(r) == TotalDistance(ss)
  {
    var oldSection := FindByDownStation(ss, newSection.down).value;
    assert IsStationOnLine(ss, newSection.down) by {
      assert oldSection in ss && oldSection.down == newSection.down;
    }
    assert !ShouldInsertAtTop(ss, newSection);
    assert !ShouldInsertAtBottom(ss, newSection);
    if oldSection.distance > newSection.distance {
      SplitContents(ss, oldSection, DownSplitRemainder(oldSection, newSection), newSection);
    }
  }

  /** With all distances positive and a positive new distance, a successful
      insert leaves every distance positive. */
  lemma InsertKeepsDistancesPositive(ss: seq<Section>, newSection: Section)
    requires forall s :: s in ss ==> s.distance > 0
    requires newSection.distance > 0
    requires Inserted(ss, newSection).Ok?
    ensures forall s :: s in Inserted(ss, newSection).value ==> s.distance > 0
  {
    if ss != [] && !ShouldInsertAtTop(ss, newSection) && !ShouldInsertAtBottom(ss, newSection) {
      if IsStationInUpStations(ss, newSection.up) {
        RemoveFirstSubset(ss, FindByUpStation(ss, newSection.up).value);
      } else {
        DownSplitReachable(ss, newSection);
        RemoveFirstSubset(ss, FindByDownStation(ss, newSection.down).value);
      }
    } else if ss != [] && !ShouldInsertAtTop(ss, newSection) {
      InsertedAtBottomMembers(ss, newSection);
    }
  }

  /** The bottom insert adds the new section and no other. */
  lemma InsertedAtBottomMembers(ss: seq<Section>, newSection: Section)
    requires ss != []
    ensures forall s :: s in InsertedAtBottom(ss, newSection) ==> s in ss || s == newSection
  {
    var k := |ss| - 1;
    assert ss == ss[..k] + ss[k..];
  }
}
