/** What `deleteStation`, as written (`SectionsSpec.Deleted`), does to a line
    whose sections form one simple path:
    deleting the first station drops the first section, deleting an interior
    station merges the two sections around it, and deleting the last station
    or a station off the line is refused. Throughout, `chain` lists the
    sections of `ss` in travel order. */
module DeletePaths {
  import opened Subway
  import opened SectionQueries
  import opened SectionsSpec
  import opened Paths

  /** A line of fewer than two sections refuses every delete. */
  lemma DeleteNeedsTwoSections(ss: seq<Section>, station: Station)
    requires |ss| < 2
    ensures Deleted(ss, station) == Err(InvalidRequest)
  {
  }

  /** Deleting the first station of a path of two or more sections drops the
      first section: the rest is a path through every other station, one
      section shorter and shorter by that section's distance. */
  lemma DeleteTop(ss: seq<Section>, chain: seq<Section>)
    requires PathOf(ss, chain) && |chain| >= 2
    ensures Deleted(ss, StationsOf(chain)[0]) == Ok(RemoveFirst(ss, chain[0]))
    ensures PathOf(RemoveFirst(ss, chain[0]), chain[1..])
    ensures StationsOf(chain[1..]) == StationsOf(chain)[1..]
    ensures |RemoveFirst(ss, chain[0])| == |ss| - 1
    ensures TotalDistance(RemoveFirst(ss, chain[0])) == TotalDistance(ss) - chain[0].distance
  {
    TopLookups(ss, chain);
    DeleteTopCase(ss, StationsOf(chain)[0]);
    RemoveFirstSection(ss, chain);
  }

  /** With all distances positive, a successful delete leaves every distance
      positive: it only removes sections, and a merged section is as long as
      the two it replaces together. */
  lemma DeleteKeepsDistancesPositive(ss: seq<Section>, station: Station)
    requires forall s :: s in ss ==> s.distance > 0
    requires Deleted(ss, station).Ok?
    ensures forall s :: s in Deleted(ss, station).value ==> s.distance > 0
  {
    var below := FindByUpStation(ss, station).value;
    RemoveFirstSubset(ss, below);
    if !IsTopStation(ss, station) && !IsBottomStation(ss, station) {
      RemoveFirstSubset(RemoveFirst(ss, below), FindByDownStation(ss, station).value);
    }
  }

  /** Taking the first section out of a path of two or more sections leaves
      a path through every station but the first. */
  lemma RemoveFirstSection(ss: seq<Section>, chain: seq<Section>)
    requires PathOf(ss, chain) && |chain| >= 2
    ensures PathOf(RemoveFirst(ss, chain[0]), chain[1..])
    ensures StationsOf(chain[1..]) == StationsOf(chain)[1..]
    ensures |RemoveFirst(ss, chain[0])| == |ss| - 1
    ensures TotalDistance(RemoveFirst(ss, chain[0])) == TotalDistance(ss) - chain[0].distance
  {
    FirstRemoved(ss, chain);
    DropFirst(chain);
    TotalDistanceRemoveFirst(ss, chain[0]);
  }

  /** Taking the last section out of a path of two or more sections leaves
      a path through every station but the last. */
  lemma RemoveLastSection(ss: seq<Section>, chain: seq<Section>)
    requires PathOf(ss, chain) && |chain| >= 2
    ensures PathOf(RemoveFirst(ss, chain[|chain| - 1]), chain[..|chain| - 1])
    ensures StationsOf(chain[..|chain| - 1]) == StationsOf(chain)[..|chain|]
    ensures |RemoveFirst(ss, chain[|chain| - 1])| == |ss| - 1
    ensures TotalDistance(RemoveFirst(ss, chain[|chain| - 1])) == TotalDistance(ss) - chain[|chain| - 1].distance
  {
    var last := chain[|chain| - 1];
    LastRemoved(ss, chain);
    DropLast(chain);
    TotalDistanceRemoveFirst(ss, last);
  }

  lemma FirstRemoved(ss: seq<Section>, chain: seq<Section>)
    requires multiset(ss) == multiset(chain) && chain != []
    ensures chain[0] in ss
    ensures multiset(RemoveFirst(ss, chain[0])) == multiset(chain[1..])
  {
    assert chain == [chain[0]] + chain[1..];
    assert chain[0] in multiset(ss);
    RemoveFirstContents(ss, chain[0]);
  }

  lemma LastRemoved(ss: seq<Section>, chain: seq<Section>)
    requires multiset(ss) == multiset(chain) && chain != []
    ensures chain[|chain| - 1] in ss
    ensures multiset(RemoveFirst(ss, chain[|chain| - 1])) == multiset(chain[..|chain| - 1])
  {
    var last := chain[|chain| - 1];
    assert chain == chain[..|chain| - 1] + [last];
    assert last in multiset(ss);
    RemoveFirstContents(ss, last);
  }

  /** Step for the proofs below: the branch of `Deleted` taken at a top
      station, unfolded once. */
  lemma DeleteTopCase(ss: seq<Section>, station: Station)
    requires |ss| >= 2 && IsTopStation(ss, station)
    ensures Deleted(ss, station) == Ok(RemoveFirst(ss, FindByUpStation(ss, station).value))
  {
  }

  /** Step for the proofs below: the branch of `Deleted` taken at a station
      where some section ends and some section starts, unfolded once. */
  lemma DeleteInteriorCase(ss: seq<Section>, station: Station)
    requires |ss| >= 2 && IsStationInUpStations(ss, station) && IsStationInDownStations(ss, station)
    ensures var below := FindByUpStation(ss, station).value;
      var above := FindByDownStation(ss, station).value;
      Deleted(ss, station) == Ok(RemoveFirst(RemoveFirst(ss, below), above) + [Merged(above, below)])
  {
  }

  /** Deleting the last station of a path is refused with `EntityNotFound`:
      the lookup is by up-station, and no section starts at the last station. */
  lemma DeleteBottomNotFound(ss: seq<Section>, chain: seq<Section>)
    requires PathOf(ss, chain) && |chain| >= 2
    ensures IsBottomStation(ss, StationsOf(chain)[|chain|])
    ensures Deleted(ss, StationsOf(chain)[|chain|]) == Err(EntityNotFound)
  {
    BottomLookups(ss, chain);
    DeleteBottomCase(ss, StationsOf(chain)[|chain|]);
  }

  /** Step for the proofs below: the branch of `Deleted` taken at a bottom
      station, unfolded once; its lookup by up-station finds nothing. */
  lemma DeleteBottomCase(ss: seq<Section>, station: Station)
    requires |ss| >= 2
    requires FindByUpStation(ss, station).None? && FindByDownStation(ss, station).Some?
    ensures IsBottomStation(ss, station)
    ensures Deleted(ss, station) == Err(EntityNotFound)
  {
    assert !IsTopStation(ss, station);
  }

  /** On a path of two or more sections, the last section is the first one
      ending at the last station, and no section starts there. */
  lemma BottomLookups(ss: seq<Section>, chain: seq<Section>)
    requires PathOf(ss, chain) && |chain| >= 2
    ensures |ss| >= 2
    ensures FindByDownStation(ss, StationsOf(chain)[|chain|]) == Some(chain[|chain| - 1])
    ensures FindByUpStation(ss, StationsOf(chain)[|chain|]).None?
  {
    SameElements(ss, chain);
    LookupAt(ss, chain, |chain| - 1);
    EndsOfPath(ss, chain);
  }

  /** On a path of two or more sections, the first section is the first one
      starting at the first station, and no section ends there. */
  lemma TopLookups(ss: seq<Section>, chain: seq<Section>)
    requires PathOf(ss, chain) && |chain| >= 2
    ensures |ss| >= 2 && chain[0] in ss
    ensures FindByUpStation(ss, StationsOf(chain)[0]) == Some(chain[0])
    ensures FindByDownStation(ss, StationsOf(chain)[0]).None?
  {
    SameElements(ss, chain);
    LookupAt(ss, chain, 0);
    EndsOfPath(ss, chain);
  }

  /** Taking out two different sections and adding one takes them out of the multiset. */
  lemma MergeContents(ss: seq<Section>, below: Section, above: Section, merged: Section)
    requires below in ss && above in ss && below != above
    ensures var r := RemoveFirst(RemoveFirst(ss, below), above) + [merged];
      && |r| == |ss| - 1
      && multiset(r) == multiset(ss) - multiset{below} - multiset{above} + multiset{merged}
      && TotalDistance(r) == TotalDistance(ss) - below.distance - above.distance + merged.distance
  {
    var once := RemoveFirst(ss, below);
    RemoveFirstContents(ss, below);
    assert above in once by {
      assert above in multiset(once);
    }
    RemoveFirstContents(once, above);
    TotalDistanceRemoveFirst(ss, below);
    TotalDistanceRemoveFirst(once, above);
    TotalDistanceAppend(RemoveFirst(once, above), [merged]);
  }

  /** Replacing the elements `j-1` and `j` by `m` replaces them in the multiset. */
  lemma MergeMultiset(chain: seq<Section>, j: int, m: Section)
    requires 0 < j < |chain|
    ensures multiset(chain[..j - 1] + [m] + chain[j + 1..]) ==
            multiset(chain) - multiset{chain[j]} - multiset{chain[j - 1]} + multiset{m}
  {
    var front, back := chain[..j - 1], chain[j + 1..];
    assert chain == front + [chain[j - 1]] + [chain[j]] + back;
    assert multiset(chain) == multiset(front) + multiset{chain[j - 1]} + multiset{chain[j]} + multiset(back);
    assert multiset(front + [m] + back) == multiset(front) + multiset{m} + multiset(back);
  }

  /** Deleting the `j`-th station, strictly inside a path, merges the section
      ending there with the section starting there into one section across it,
      as long as both together; the stations keep their order without the
      `j`-th, and the total distance does not change. */
  lemma DeleteInterior(ss: seq<Section>, chain: seq<Section>, j: int)
    requires PathOf(ss, chain) && 0 < j < |chain|
    ensures var m := Merged(chain[j - 1], chain[j]);
      var r := RemoveFirst(RemoveFirst(ss, chain[j]), chain[j - 1]) + [m];
      && m.up == chain[j - 1].up && m.down == chain[j].down
      && m.distance == chain[j - 1].distance + chain[j].distance
      && Deleted(ss, StationsOf(chain)[j]) == Ok(r)
      && PathOf(r, chain[..j - 1] + [m] + chain[j + 1..])
      && StationsOf(chain[..j - 1] + [m] + chain[j + 1..]) == StationsOf(chain)[..j] + StationsOf(chain)[j + 1..]
      && |r| == |ss| - 1
      && TotalDistance(r) == TotalDistance(ss)
  {
    InteriorLookups(ss, chain, j);
    DeleteInteriorCase(ss, StationsOf(chain)[j]);
    InteriorMerged(ss, chain, j);
  }

  /** Taking out the `j`-th section and the one before it, and appending the
      merged section, leaves a path without the `j`-th station. */
  lemma InteriorMerged(ss: seq<Section>, chain: seq<Section>, j: int)
    requires PathOf(ss, chain) && 0 < j < |chain|
    ensures var m := Merged(chain[j - 1], chain[j]);
      var r := RemoveFirst(RemoveFirst(ss, chain[j]), chain[j - 1]) + [m];
      && m.up == chain[j - 1].up && m.down == chain[j].down
      && m.distance == chain[j - 1].distance + chain[j].distance
      && PathOf(r, chain[..j - 1] + [m] + chain[j + 1..])
      && StationsOf(chain[..j - 1] + [m] + chain[j + 1..]) == StationsOf(chain)[..j] + StationsOf(chain)[j + 1..]
      && |r| == |ss| - 1
      && TotalDistance(r) == TotalDistance(ss)
  {
    var m := Merged(chain[j - 1], chain[j]);
    AdjacentDiffer(chain, j);
    MergedContents(ss, chain, j, m);
    Merge(chain, j, m);
  }

  /** Two neighbouring sections of a path are different sections. */
  lemma AdjacentDiffer(chain: seq<Section>, j: int)
    requires IsChain(chain) && 0 < j < |chain|
    ensures chain[j] != chain[j - 1]
    ensures chain[j - 1].down == chain[j].up
  {
    var p := StationsOf(chain);
    assert chain[j - 1].down == p[j] && chain[j].down == p[j + 1];
  }

  /** Replacing two adjacent, different sections of `chain` by `m`, in both
      `ss` and `chain`, keeps the two lists equal as multisets. */
  lemma MergedContents(ss: seq<Section>, chain: seq<Section>, j: int, m: Section)
    requires multiset(ss) == multiset(chain) && 0 < j < |chain| && chain[j] != chain[j - 1]
    ensures var r := RemoveFirst(RemoveFirst(ss, chain[j]), chain[j - 1]) + [m];
      && multiset(r) == multiset(chain[..j - 1] + [m] + chain[j + 1..])
      && |r| == |ss| - 1
      && TotalDistance(r) == TotalDistance(ss) - chain[j].distance - chain[j - 1].distance + m.distance
  {
    assert chain[j] in multiset(ss) && chain[j - 1] in multiset(ss);
    MergeContents(ss, chain[j], chain[j - 1], m);
    MergeMultiset(chain, j, m);
  }


  /** Strictly inside a path, the `j`-th station starts the `j`-th section
      and ends the one before it, and those are the first found by each lookup. */
  lemma InteriorLookups(ss: seq<Section>, chain: seq<Section>, j: int)
    requires PathOf(ss, chain) && 0 < j < |chain|
    ensures |ss| >= 2 && chain[j] in ss && chain[j - 1] in ss && chain[j] != chain[j - 1]
    ensures FindByUpStation(ss, StationsOf(chain)[j]) == Some(chain[j])
    ensures FindByDownStation(ss, StationsOf(chain)[j]) == Some(chain[j - 1])
  {
    SameElements(ss, chain);
    LookupAt(ss, chain, j);
    LookupAt(ss, chain, j - 1);
    assert chain[j].up == StationsOf(chain)[j] && chain[j - 1].up == StationsOf(chain)[j - 1];
  }

  /** A station no section of the path touches cannot be deleted. */
  lemma DeleteAbsentNotFound(ss: seq<Section>, chain: seq<Section>, station: Station)
    requires PathOf(ss, chain) && |ss| >= 2
    requires station !in StationsOf(chain)
    ensures Deleted(ss, station) == Err(EntityNotFound)
  {
    OnLineIffOnPath(ss, chain, station);
  }

  /** On a path of two or more sections, a delete succeeds exactly for the
      stations the path passes other than its last one, and otherwise fails
      with `EntityNotFound`. */
  lemma DeleteOutcome(ss: seq<Section>, chain: seq<Section>, station: Station)
    requires PathOf(ss, chain) && |ss| >= 2
    ensures Deleted(ss, station).Ok? <==> station in StationsOf(chain)[..|chain|]
    ensures Deleted(ss, station).Err? ==> Deleted(ss, station).error == EntityNotFound
  {
    var p := StationsOf(chain);
    assert |chain| >= 2 by {
      SameElements(ss, chain);
    }
    if station in p[..|chain|] {
      var k :| 0 <= k < |chain| && p[..|chain|][k] == station;
      if k == 0 {
        assert Deleted(ss, station).Ok? by {
          DeleteTop(ss, chain);
        }
      } else {
        assert Deleted(ss, station).Ok? by {
          DeleteInterior(ss, chain, k);
        }
      }
    } else if station in p {
      assert station == p[|chain|] by {
        var k :| 0 <= k < |p| && p[k] == station;
        assert k == |chain|;
      }
      DeleteBottomNotFound(ss, chain);
    } else {
      DeleteAbsentNotFound(ss, chain, station);
    }
  }

  /** `r` is one simple path through every station of `chain` but `station`. */
  ghost predicate PathShortened(r: seq<Section>, chain: seq<Section>, station: Station)
  {
    exists c :: PathOf(r, c) && station !in StationsOf(c) && OneStationAdded(StationsOf(c), StationsOf(chain))
  }

  lemma PathShortenedBy(r: seq<Section>, chain: seq<Section>, station: Station, c: seq<Section>)
    requires PathOf(r, c) && station !in StationsOf(c) && OneStationAdded(StationsOf(c), StationsOf(chain))
    ensures PathShortened(r, chain, station)
  {
  }

  lemma TopShortens(ss: seq<Section>, chain: seq<Section>)
    requires PathOf(ss, chain) && |chain| >= 2
    ensures Deleted(ss, StationsOf(chain)[0]).Ok?
    ensures PathShortened(Deleted(ss, StationsOf(chain)[0]).value, chain, StationsOf(chain)[0])
  {
    var p := StationsOf(chain);
    assert PathOf(Deleted(ss, p[0]).value, chain[1..]) && StationsOf(chain[1..]) == p[1..] by {
      DeleteTop(ss, chain);
    }
    assert p[0] !in p[1..] && OneStationAdded(p[1..], p) by {
      DistinctRemove(p, 0);
      assert p[..0] + p[1..] == p[1..];
    }
    PathShortenedBy(Deleted(ss, p[0]).value, chain, p[0], chain[1..]);
  }

  lemma InteriorShortens(ss: seq<Section>, chain: seq<Section>, j: int)
    requires PathOf(ss, chain) && 0 < j < |chain|
    ensures Deleted(ss, StationsOf(chain)[j]).Ok?
    ensures PathShortened(Deleted(ss, StationsOf(chain)[j]).value, chain, StationsOf(chain)[j])
  {
    var p := StationsOf(chain);
    var c := chain[..j - 1] + [Merged(chain[j - 1], chain[j])] + chain[j + 1..];
    assert Deleted(ss, p[j]).Ok? && PathOf(Deleted(ss, p[j]).value, c) && StationsOf(c) == p[..j] + p[j + 1..] by {
      DeleteInterior(ss, chain, j);
    }
    assert p[j] !in p[..j] + p[j + 1..] && OneStationAdded(p[..j] + p[j + 1..], p) by {
      DistinctRemove(p, j);
    }
    PathShortenedBy(Deleted(ss, p[j]).value, chain, p[j], c);
  }

  /** Dropping the last section of a path shortens it by its last station. */
  lemma LastDropped(ss: seq<Section>, chain: seq<Section>)
    requires PathOf(ss, chain) && |chain| >= 2
    ensures PathShortened(RemoveFirst(ss, chain[|chain| - 1]), chain, StationsOf(chain)[|chain|])
  {
    var p := StationsOf(chain);
    var n := |chain|;
    RemoveLastSection(ss, chain);
    assert p[n] !in p[..n] && OneStationAdded(p[..n], p) by {
      DistinctRemove(p, n);
      assert p[..n] + p[n + 1..] == p[..n];
    }
    PathShortenedBy(RemoveFirst(ss, chain[n - 1]), chain, p[n], chain[..n - 1]);
  }

  /** The headline property of `deleteStation`: on a line that is one simple
      path, a successful delete leaves one simple path again, passing every
      station it passed before except the deleted one. */
  lemma DeleteKeepsPath(ss: seq<Section>, chain: seq<Section>, station: Station)
    requires PathOf(ss, chain)
    requires Deleted(ss, station).Ok?
    ensures PathShortened(Deleted(ss, station).value, chain, station)
  {
    SameElements(ss, chain);
    var p := StationsOf(chain);
    if station in p[..|chain|] {
      var k :| 0 <= k < |chain| && p[..|chain|][k] == station;
      if k == 0 {
        TopShortens(ss, chain);
      } else {
        InteriorShortens(ss, chain, k);
      }
    } else {
      DeleteOutcome(ss, chain, station);
      assert false;
    }
  }
}
