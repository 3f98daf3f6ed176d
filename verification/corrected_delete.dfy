/** `deleteStation` sends both end stations of a line to the same helper,
    which looks the station up among the up-stations. That lookup finds the
    first section for the top station, but no section starts at the bottom
    station, so deleting the last station of a line always fails with
    `EntityNotFound`. `DeletedIntended` falls back to the down-stations when
    no section starts at the station; with that change every station of a
    line of two or more sections can be deleted, and the line stays one
    simple path. `SectionsSpec.Deleted` and the class in module Sections keep
    the code as written. */
module CorrectedDelete {
  import opened Subway
  import opened SectionQueries
  import opened SectionsSpec
  import opened Paths
  import opened DeletePaths

  /** `deleteStation` with the end-station case fixed: when no section starts
      at the station (the bottom station), the section to drop is the first
      one ending there. */
  function DeletedIntended(ss: seq<Section>, station: Station): Result<seq<Section>>
  {
    if ValidateSectionToDelete(ss).Some? then Err(InvalidRequest)
    else if IsTopStation(ss, station) || IsBottomStation(ss, station) then
      match FindByUpStation(ss, station)
      case Some(s) => Ok(RemoveFirst(ss, s))
      case None =>
        match FindByDownStation(ss, station)
        case None => Err(EntityNotFound)
        case Some(s) => Ok(RemoveFirst(ss, s))
    else
      match FindByUpStation(ss, station)
      case None => Err(EntityNotFound)
      case Some(below) =>
        match FindByDownStation(ss, station)
        case None => Err(EntityNotFound)
        case Some(above) => Ok(RemoveFirst(RemoveFirst(ss, below), above) + [Merged(above, below)])
  }

  /** Corrected: with all distances positive, a successful delete leaves
      every distance positive. */
  lemma DeletedIntendedKeepsDistancesPositive(ss: seq<Section>, station: Station)
    requires forall s :: s in ss ==> s.distance > 0
    requires DeletedIntended(ss, station).Ok?
    ensures forall s :: s in DeletedIntended(ss, station).value ==> s.distance > 0
  {
    if FindByUpStation(ss, station).Some? {
      var below := FindByUpStation(ss, station).value;
      RemoveFirstSubset(ss, below);
      if !IsTopStation(ss, station) && !IsBottomStation(ss, station) {
        RemoveFirstSubset(RemoveFirst(ss, below), FindByDownStation(ss, station).value);
      }
    } else {
      RemoveFirstSubset(ss, FindByDownStation(ss, station).value);
    }
  }

  /** A two-section line A -> B -> C: deleting C fails as written, and drops
      the section B -> C once corrected. */
  lemma BottomDeleteCounterexample()
    ensures var a, b, c := Station(1), Station(2), Station(3);
      var ss := [Section(1, 1, a, b, 3), Section(2, 1, b, c, 4)];
      && Deleted(ss, c) == Err(EntityNotFound)
      && DeletedIntended(ss, c) == Ok([Section(1, 1, a, b, 3)])
  {
    var a, b, c := Station(1), Station(2), Station(3);
    var ss := [Section(1, 1, a, b, 3), Section(2, 1, b, c, 4)];
    assert FindByUpStation(ss, c).None?;
    assert FindByDownStation(ss, c) == Some(ss[1]);
    assert RemoveFirst(ss, ss[1]) == [ss[0]];
  }

  /** The correction changes nothing but the bottom-station case: anywhere
      else, whether the delete succeeds and what it leaves are as written. */
  lemma DeletedIntendedAgrees(ss: seq<Section>, station: Station)
    ensures !IsBottomStation(ss, station) ==> DeletedIntended(ss, station) == Deleted(ss, station)
  {
  }

  /** Step for the proofs below: the branch of `DeletedIntended` taken at a
      bottom station, unfolded once. */
  lemma DeleteBottomCaseIntended(ss: seq<Section>, station: Station, last: Section)
    requires |ss| >= 2
    requires FindByUpStation(ss, station).None? && FindByDownStation(ss, station) == Some(last)
    ensures DeletedIntended(ss, station) == Ok(RemoveFirst(ss, last))
  {
    assert IsBottomStation(ss, station) && !IsTopStation(ss, station);
  }

  /** Corrected: deleting the last station of a path of two or more sections
      drops the last section (what then remains: `RemoveLastSection`). */
  lemma DeleteBottomIntended(ss: seq<Section>, chain: seq<Section>)
    requires PathOf(ss, chain) && |chain| >= 2
    ensures DeletedIntended(ss, StationsOf(chain)[|chain|]) == Ok(RemoveFirst(ss, chain[|chain| - 1]))
  {
    BottomLookups(ss, chain);
    DeleteBottomCaseIntended(ss, StationsOf(chain)[|chain|], chain[|chain| - 1]);
  }

  /** Corrected: on a path of two or more sections, a delete succeeds exactly
      for the stations the path passes, and otherwise fails with `EntityNotFound`. */
  lemma DeletedIntendedOutcome(ss: seq<Section>, chain: seq<Section>, station: Station)
    requires PathOf(ss, chain) && |ss| >= 2
    ensures DeletedIntended(ss, station).Ok? <==> station in StationsOf(chain)
    ensures DeletedIntended(ss, station).Err? ==> DeletedIntended(ss, station).error == EntityNotFound
  {
    var p := StationsOf(chain);
    assert |chain| >= 2 by {
      SameElements(ss, chain);
    }
    if station == p[|chain|] {
      assert DeletedIntended(ss, station).Ok? by {
        DeleteBottomIntended(ss, chain);
      }
    } else {
      OutcomeOffBottom(ss, chain, station);
    }
  }

  /** Away from the last station, the corrected delete succeeds exactly where
      the code as written does: at the stations the path passes. */
  lemma OutcomeOffBottom(ss: seq<Section>, chain: seq<Section>, station: Station)
    requires PathOf(ss, chain) && |ss| >= 2 && chain != [] && station != StationsOf(chain)[|chain|]
    ensures DeletedIntended(ss, station).Ok? <==> station in StationsOf(chain)
    ensures DeletedIntended(ss, station).Err? ==> DeletedIntended(ss, station).error == EntityNotFound
  {
    NotBottom(ss, chain, station);
    DeletedIntendedAgrees(ss, station);
    DeleteOutcome(ss, chain, station);
    InPrefix(StationsOf(chain), station);
  }

  /** Only the last station of a path of two or more sections is a bottom station. */
  lemma NotBottom(ss: seq<Section>, chain: seq<Section>, station: Station)
    requires PathOf(ss, chain) && chain != [] && station != StationsOf(chain)[|chain|]
    ensures !IsBottomStation(ss, station)
  {
    var p := StationsOf(chain);
    if station in p {
      var k :| 0 <= k < |p| && p[k] == station;
      assert k < |chain|;
      LookupAt(ss, chain, k);
      assert FindByUpStation(ss, station).Some?;
    } else {
      OnLineIffOnPath(ss, chain, station);
    }
  }

  lemma InPrefix(p: seq<Station>, x: Station)
    requires p != [] && x != p[|p| - 1]
    ensures x in p[..|p| - 1] <==> x in p
  {
    assert p == p[..|p| - 1] + [p[|p| - 1]];
  }

  lemma BottomShortens(ss: seq<Section>, chain: seq<Section>)
    requires PathOf(ss, chain) && |chain| >= 2
    ensures DeletedIntended(ss, StationsOf(chain)[|chain|]).Ok?
    ensures PathShortened(DeletedIntended(ss, StationsOf(chain)[|chain|]).value, chain, StationsOf(chain)[|chain|])
  {
    DeleteBottomIntended(ss, chain);
    LastDropped(ss, chain);
  }

  /** Corrected headline: a successful delete leaves one simple path through
      every station it passed before except the deleted one. */
  lemma DeletedIntendedKeepsPath(ss: seq<Section>, chain: seq<Section>, station: Station)
    requires PathOf(ss, chain)
    requires DeletedIntended(ss, station).Ok?
    ensures PathShortened(DeletedIntended(ss, station).value, chain, station)
  {
    var p := StationsOf(chain);
    assert |chain| >= 2 by {
      SameElements(ss, chain);
    }
    if station == p[|chain|] {
      BottomShortens(ss, chain);
    } else {
      assert !IsBottomStation(ss, station) by {
        NotBottom(ss, chain, station);
      }
      DeletedIntendedAgrees(ss, station);
      DeleteKeepsPath(ss, chain, station);
    }
  }
}
