/** What `insert` does to a line whose sections form one simple path: each of
    its cases, stated in terms of the path's stations, and the resulting
    path. Throughout, `chain` lists the sections of `ss` in travel order. */
module InsertPaths {
  import opened Subway
  import opened SectionQueries
  import opened SectionsSpec
  import opened Paths
  import opened InsertCases

  /** A line accepts a section whose two stations are both on it, or both off it, never. */
  lemma InsertRejectsBothOrNeither(ss: seq<Section>, chain: seq<Section>, newSection: Section)
    requires PathOf(ss, chain) && chain != []
    requires (newSection.up in StationsOf(chain)) == (newSection.down in StationsOf(chain))
    ensures Inserted(ss, newSection) == Err(InvalidRequest)
  {
    SameElements(ss, chain);
    OnLineIffOnPath(ss, chain, newSection.up);
    OnLineIffOnPath(ss, chain, newSection.down);
  }

  /** A section from a new station to the first station becomes the new top:
      it is put at index 0, every other section stays as it was, and the new
      station comes first. */
  lemma InsertAtTop(ss: seq<Section>, chain: seq<Section>, newSection: Section)
    requires PathOf(ss, chain) && chain != []
    requires newSection.down == StationsOf(chain)[0] && newSection.up !in StationsOf(chain)
    ensures Inserted(ss, newSection) == Ok([newSection] + ss)
    ensures PathOf([newSection] + ss, [newSection] + chain)
    ensures StationsOf([newSection] + chain) == [newSection.up] + StationsOf(chain)
  {
    SameElements(ss, chain);
    OnLineIffOnPath(ss, chain, newSection.up);
    LookupAt(ss, chain, 0);
    EndsOfPath(ss, chain);
    InsertAtTopCase(ss, newSection);
    Prepend(chain, newSection);
  }

  /** A section from the last station to a new station becomes the new bottom:
      it is put at index `|ss| - 1`, every other section stays as it was, and
      the new station comes last. */
  lemma InsertAtBottom(ss: seq<Section>, chain: seq<Section>, newSection: Section)
    requires PathOf(ss, chain) && chain != []
    requires newSection.up == StationsOf(chain)[|chain|] && newSection.down !in StationsOf(chain)
    ensures ss != [] && Inserted(ss, newSection) == Ok(InsertedAtBottom(ss, newSection))
    ensures PathOf(InsertedAtBottom(ss, newSection), chain + [newSection])
    ensures StationsOf(chain + [newSection]) == StationsOf(chain) + [newSection.down]
  {
    SameElements(ss, chain);
    OnLineIffOnPath(ss, chain, newSection.down);
    LookupAt(ss, chain, |chain| - 1);
    EndsOfPath(ss, chain);
    InsertAtBottomCase(ss, newSection);
    Append(chain, newSection);
  }

  /** A section from the `i`-th station (not the last) to a new station splits
      the `i`-th section, which must be longer than the new section: the new
      section covers the first part and the old section, now starting at the
      new station, the rest. The new station comes right after the `i`-th. */
  lemma InsertSplitAtUpStation(ss: seq<Section>, chain: seq<Section>, newSection: Section, i: int)
    requires PathOf(ss, chain) && 0 <= i < |chain|
    requires newSection.up == StationsOf(chain)[i] && newSection.down !in StationsOf(chain)
    ensures newSection.distance >= chain[i].distance ==> Inserted(ss, newSection) == Err(InvalidRequest)
    ensures newSection.distance < chain[i].distance ==>
      var remainder := UpSplitRemainder(chain[i], newSection);
      && Inserted(ss, newSection) == Ok(RemoveFirst(ss, chain[i]) + [remainder, newSection])
      && PathOf(RemoveFirst(ss, chain[i]) + [remainder, newSection],
                chain[..i] + [newSection, remainder] + chain[i + 1..])
      && StationsOf(chain[..i] + [newSection, remainder] + chain[i + 1..])
         == StationsOf(chain)[..i + 1] + [newSection.down] + StationsOf(chain)[i + 1..]
  {
    SplitLookups(ss, chain, i, newSection.down);
    InsertSplitUpCase(ss, newSection);
    if newSection.distance < chain[i].distance {
      var remainder := UpSplitRemainder(chain[i], newSection);
      SplitPath(ss, chain, i, newSection, remainder, RemoveFirst(ss, chain[i]) + [remainder, newSection]);
    }
  }


  /** A section from a new station to the `i+1`-th station (not the first)
      splits the `i`-th section, which must be longer than the new section: the
      old section, now ending at the new station, covers the first part and the
      new section the rest. The new station comes right after the `i`-th. */
  lemma InsertSplitAtDownStation(ss: seq<Section>, chain: seq<Section>, newSection: Section, i: int)
    requires PathOf(ss, chain) && 0 <= i < |chain|
    requires newSection.down == StationsOf(chain)[i + 1] && newSection.up !in StationsOf(chain)
    ensures newSection.distance >= chain[i].distance ==> Inserted(ss, newSection) == Err(InvalidRequest)
    ensures newSection.distance < chain[i].distance ==>
      var remainder := DownSplitRemainder(chain[i], newSection);
      && Inserted(ss, newSection) == Ok(RemoveFirst(ss, chain[i]) + [remainder, newSection])
      && PathOf(RemoveFirst(ss, chain[i]) + [remainder, newSection],
                chain[..i] + [remainder, newSection] + chain[i + 1..])
      && StationsOf(chain[..i] + [remainder, newSection] + chain[i + 1..])
         == StationsOf(chain)[..i + 1] + [newSection.up] + StationsOf(chain)[i + 1..]
  {
    SplitLookups(ss, chain, i, newSection.up);
    InsertSplitDownCase(ss, newSection);
    if newSection.distance < chain[i].distance {
      var remainder := DownSplitRemainder(chain[i], newSection);
      SplitPath(ss, chain, i, remainder, newSection, RemoveFirst(ss, chain[i]) + [remainder, newSection]);
    }
  }

  /** A list holding the sections of a path with the `i`-th swapped for two
      sections through a new station is the path split at that station. */
  lemma SplitPath(ss: seq<Section>, chain: seq<Section>, i: int, a: Section, b: Section, r: seq<Section>)
    requires PathOf(ss, chain) && 0 <= i < |chain|
    requires a.up == chain[i].up && a.down == b.up && b.down == chain[i].down
    requires a.down !in StationsOf(chain)
    requires multiset(r) == multiset(ss) - multiset{chain[i]} + multiset{a, b}
    ensures PathOf(r, chain[..i] + [a, b] + chain[i + 1..])
    ensures StationsOf(chain[..i] + [a, b] + chain[i + 1..]) == StationsOf(chain)[..i + 1] + [a.down] + StationsOf(chain)[i + 1..]
  {
    SpliceMultiset(chain, i, a, b);
    Split(chain, i, a, b);
  }


  /** On a path, the `i`-th section is the first found from either of its
      stations, and a station off the path is not on the line. */
  lemma SplitLookups(ss: seq<Section>, chain: seq<Section>, i: int, x: Station)
    requires PathOf(ss, chain) && 0 <= i < |chain| && x !in StationsOf(chain)
    ensures ss != [] && !IsStationOnLine(ss, x)
    ensures chain[i].up == StationsOf(chain)[i] && chain[i].down == StationsOf(chain)[i + 1]
    ensures FindByUpStation(ss, StationsOf(chain)[i]) == Some(chain[i])
    ensures FindByDownStation(ss, StationsOf(chain)[i + 1]) == Some(chain[i])
  {
    SameElements(ss, chain);
    OnLineIffOnPath(ss, chain, x);
    LookupAt(ss, chain, i);
  }

  /** Inserting into an empty line gives a one-section path, provided the
      section does not start and end at the same station. */
  lemma InsertIntoEmpty(newSection: Section)
    requires newSection.up != newSection.down
    ensures Inserted([], newSection) == Ok([newSection])
    ensures PathOf([newSection], [newSection])
    ensures StationsOf([newSection]) == [newSection.up, newSection.down]
  {
    assert StationsOf([newSection])[1] == newSection.down;
  }

  /** `r` is one simple path through one station more than `chain`, both
      stations of `newSection` among them. */
  ghost predicate PathExtended(r: seq<Section>, chain: seq<Section>, newSection: Section)
  {
    exists c :: PathOf(r, c) && OneStationAdded(StationsOf(chain), StationsOf(c)) &&
                newSection.up in StationsOf(c) && newSection.down in StationsOf(c)
  }

  lemma PathExtendedBy(r: seq<Section>, chain: seq<Section>, newSection: Section, c: seq<Section>)
    requires PathOf(r, c) && OneStationAdded(StationsOf(chain), StationsOf(c))
    requires newSection.up in StationsOf(c) && newSection.down in StationsOf(c)
    ensures PathExtended(r, chain, newSection)
  {
  }

  lemma TopExtends(ss: seq<Section>, chain: seq<Section>, newSection: Section)
    requires PathOf(ss, chain) && chain != []
    requires newSection.down == StationsOf(chain)[0] && newSection.up !in StationsOf(chain)
    ensures Inserted(ss, newSection).Ok? && PathExtended(Inserted(ss, newSection).value, chain, newSection)
  {
    var c := [newSection] + chain;
    assert Inserted(ss, newSection).Ok? && PathOf(Inserted(ss, newSection).value, c) by {
      InsertAtTop(ss, chain, newSection);
    }
    assert OneStationAdded(StationsOf(chain), StationsOf(c))
        && StationsOf(c) == [newSection.up] + StationsOf(chain) by {
      Prepend(chain, newSection);
    }
    assert StationsOf(c)[0] == newSection.up && StationsOf(c)[1] == newSection.down;
    PathExtendedBy(Inserted(ss, newSection).value, chain, newSection, c);
  }

  lemma BottomExtends(ss: seq<Section>, chain: seq<Section>, newSection: Section)
    requires PathOf(ss, chain) && chain != []
    requires newSection.up == StationsOf(chain)[|chain|] && newSection.down !in StationsOf(chain)
    ensures Inserted(ss, newSection).Ok? && PathExtended(Inserted(ss, newSection).value, chain, newSection)
  {
    var c := chain + [newSection];
    assert Inserted(ss, newSection).Ok? && PathOf(Inserted(ss, newSection).value, c) by {
      InsertAtBottom(ss, chain, newSection);
    }
    assert OneStationAdded(StationsOf(chain), StationsOf(c))
        && StationsOf(c) == StationsOf(chain) + [newSection.down] by {
      Append(chain, newSection);
    }
    assert StationsOf(c)[|chain|] == newSection.up && StationsOf(c)[|chain| + 1] == newSection.down;
    PathExtendedBy(Inserted(ss, newSection).value, chain, newSection, c);
  }

  lemma UpSplitExtends(ss: seq<Section>, chain: seq<Section>, newSection: Section, i: int)
    requires PathOf(ss, chain) && 0 <= i < |chain|
    requires newSection.up == StationsOf(chain)[i] && newSection.down !in StationsOf(chain)
    requires Inserted(ss, newSection).Ok?
    ensures PathExtended(Inserted(ss, newSection).value, chain, newSection)
  {
    var p := StationsOf(chain);
    var remainder := UpSplitRemainder(chain[i], newSection);
    var c := chain[..i] + [newSection, remainder] + chain[i + 1..];
    var q := p[..i + 1] + [newSection.down] + p[i + 1..];
    assert PathOf(Inserted(ss, newSection).value, c) && StationsOf(c) == q by {
      InsertSplitAtUpStation(ss, chain, newSection, i);
    }
    assert q[i] == newSection.up && q[i + 1] == newSection.down;
    assert OneStationAdded(p, q) by {
      DistinctInsert(p, i + 1, newSection.down);
    }
    PathExtendedBy(Inserted(ss, newSection).value, chain, newSection, c);
  }

  lemma DownSplitExtends(ss: seq<Section>, chain: seq<Section>, newSection: Section, i: int)
    requires PathOf(ss, chain) && 0 <= i < |chain|
    requires newSection.down == StationsOf(chain)[i + 1] && newSection.up !in StationsOf(chain)
    requires Inserted(ss, newSection).Ok?
    ensures PathExtended(Inserted(ss, newSection).value, chain, newSection)
  {
    var p := StationsOf(chain);
    var remainder := DownSplitRemainder(chain[i], newSection);
    var c := chain[..i] + [remainder, newSection] + chain[i + 1..];
    var q := p[..i + 1] + [newSection.up] + p[i + 1..];
    assert PathOf(Inserted(ss, newSection).value, c) && StationsOf(c) == q by {
      InsertSplitAtDownStation(ss, chain, newSection, i);
    }
    assert q[i + 1] == newSection.up && q[i + 2] == newSection.down;
    assert OneStationAdded(p, q) by {
      DistinctInsert(p, i + 1, newSection.up);
    }
    PathExtendedBy(Inserted(ss, newSection).value, chain, newSection, c);
  }

  /** The headline property of `insert`: on a non-empty line that is one simple
      path, a successful insert leaves one simple path again, passing exactly
      one station more than before, and both stations of the new section are on it. */
  lemma InsertKeepsPath(ss: seq<Section>, chain: seq<Section>, newSection: Section)
    requires PathOf(ss, chain) && ss != []
    requires Inserted(ss, newSection).Ok?
    ensures PathExtended(Inserted(ss, newSection).value, chain, newSection)
  {
    SameElements(ss, chain);
    var p := StationsOf(chain);
    if newSection.up in p && newSection.down !in p {
      var k :| 0 <= k < |p| && p[k] == newSection.up;
      if k == |chain| {
        BottomExtends(ss, chain, newSection);
      } else {
        UpSplitExtends(ss, chain, newSection, k);
      }
    } else if newSection.down in p && newSection.up !in p {
      var k :| 0 <= k < |p| && p[k] == newSection.down;
      if k == 0 {
        TopExtends(ss, chain, newSection);
      } else {
        DownSplitExtends(ss, chain, newSection, k - 1);
      }
    } else {
      InsertRejectsBothOrNeither(ss, chain, newSection);
      assert false;
    }
  }
}
