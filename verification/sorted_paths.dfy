/** What `getSortedStations` returns for a line whose sections form one
    simple path: the up -> down map sends each station of the path to the
    next, the first station is the only key that is no value, and the walk
    from it lists every station of the path in travel order. */
module SortedPaths {
  import opened Subway
  import opened SectionQueries
  import opened SectionsSpec
  import opened Paths

  /** On any list, each step of the walk that leads from a station to a
      station follows some section. */
  lemma {:induction false} WalkFollowsSections(ss: seq<Section>, start: Station, n: nat)
    ensures var w := Walk(SectionMap(ss), start, n);
      forall i :: 0 <= i < n && w[i + 1].Some? ==> w[i].Some? && HasEdge(ss, w[i].value, w[i + 1].value)
  {
    var m := SectionMap(ss);
    var w := Walk(m, start, n);
    forall i | 0 <= i < n && w[i + 1].Some?
      ensures w[i].Some? && HasEdge(ss, w[i].value, w[i + 1].value)
    {
      assert w[i + 1] == Lookup(m, w[i]);
    }
  }

  /** A map that sends each station of `p` to the next one: walking it from
      the first station for `n` steps lists the first `n + 1` stations. */
  lemma {:induction false} WalkAlong(m: map<Station, Station>, p: seq<Station>, n: nat)
    requires n < |p|
    requires forall i {:trigger Lookup(m, Some(p[i]))} :: 0 <= i < |p| - 1 ==> Lookup(m, Some(p[i])) == Some(p[i + 1])
    ensures Walk(m, p[0], n) == Present(p[..n + 1])
  {
    if n > 0 {
      WalkAlong(m, p, n - 1);
      var w := Walk(m, p[0], n - 1);
      assert w[n - 1] == Some(p[n - 1]);
      assert Lookup(m, Some(p[n - 1])) == Some(p[n]);
      assert Walk(m, p[0], n) == w + [Some(p[n])];
    }
  }

  /** A list without repeats has as many distinct elements as entries. */
  lemma {:induction false} DistinctCardinality(p: seq<Station>)
    requires Distinct(p)
    ensures |set x | x in p| == |p|
  {
    if p != [] {
      var init := p[..|p| - 1];
      assert Distinct(init);
      DistinctCardinality(init);
      assert (set x | x in p) == (set x | x in init) + {p[|p| - 1]} by {
        assert p == init + [p[|p| - 1]];
      }
      assert p[|p| - 1] !in init;
    }
  }

  /** On a path, the map sends the `i`-th station to the next one. */
  lemma MapStep(ss: seq<Section>, chain: seq<Section>, i: int)
    requires PathOf(ss, chain) && 0 <= i < |chain|
    ensures StationsOf(chain)[i] in SectionMap(ss)
    ensures SectionMap(ss)[StationsOf(chain)[i]] == StationsOf(chain)[i + 1]
  {
    var p := StationsOf(chain);
    var m := SectionMap(ss);
    assert chain[i] in ss && chain[i].up == p[i] by {
      LookupAt(ss, chain, i);
    }
    assert p[i] in m;
    var s :| s in ss && s.up == p[i] && s.down == m[p[i]];
    var k := SectionPosition(ss, chain, s);
    assert p[k] == p[i];
  }

  /** On a path, the map sends each station but the last to the next one. */
  lemma MapStepsOfPath(ss: seq<Section>, chain: seq<Section>)
    requires PathOf(ss, chain)
    ensures forall i {:trigger Lookup(SectionMap(ss), Some(StationsOf(chain)[i]))} :: 0 <= i < |chain| ==>
      Lookup(SectionMap(ss), Some(StationsOf(chain)[i])) == Some(StationsOf(chain)[i + 1])
  {
    forall i | 0 <= i < |chain|
      ensures Lookup(SectionMap(ss), Some(StationsOf(chain)[i])) == Some(StationsOf(chain)[i + 1])
    {
      MapStep(ss, chain, i);
    }
  }

  /** On a path, the keys of the map are the stations but the last. */
  lemma MapKeysOfPath(ss: seq<Section>, chain: seq<Section>)
    requires PathOf(ss, chain)
    ensures SectionMap(ss).Keys == set x | x in StationsOf(chain)[..|chain|]
  {
    var p := StationsOf(chain);
    var m := SectionMap(ss);
    forall x | x in m
      ensures x in p[..|chain|]
    {
      var s :| s in ss && s.up == x;
      var k := SectionPosition(ss, chain, s);
      assert p[..|chain|][k] == x;
    }
    forall x | x in p[..|chain|]
      ensures x in m
    {
      var i :| 0 <= i < |chain| && p[..|chain|][i] == x;
      MapStep(ss, chain, i);
    }
  }

  /** On a non-empty path, the first station is a key and no value. */
  lemma FirstIsTop(ss: seq<Section>, chain: seq<Section>)
    requires PathOf(ss, chain) && chain != []
    ensures StationsOf(chain)[0] in TopStations(SectionMap(ss))
  {
    var p := StationsOf(chain);
    var m := SectionMap(ss);
    MapStep(ss, chain, 0);
    forall v | v in m.Values
      ensures v != p[0]
    {
      var k :| k in m && m[k] == v;
      var s :| s in ss && s.up == k && s.down == v;
      var i := SectionPosition(ss, chain, s);
    }
  }

  /** On a path, every key but the first station is the value of the station before it. */
  lemma OnlyFirstIsTop(ss: seq<Section>, chain: seq<Section>, x: Station)
    requires PathOf(ss, chain) && x in TopStations(SectionMap(ss))
    ensures chain != [] && x == StationsOf(chain)[0]
  {
    var s :| s in ss && s.up == x;
    var i := SectionPosition(ss, chain, s);
    if i > 0 {
      MapStep(ss, chain, i - 1);
      assert false;
    }
  }

  /** The first `n` entries of a list without repeats are `n` distinct elements. */
  lemma PrefixCardinality(p: seq<Station>, n: nat)
    requires Distinct(p) && n <= |p|
    ensures |set x | x in p[..n]| == n
  {
    assert Distinct(p[..n]);
    DistinctCardinality(p[..n]);
  }

  /** On a path, the map has one entry per section. */
  lemma MapSize(ss: seq<Section>, chain: seq<Section>)
    requires PathOf(ss, chain)
    ensures |SectionMap(ss)| == |ss|
  {
    assert SectionMap(ss).Keys == set x | x in StationsOf(chain)[..|chain|] by {
      MapKeysOfPath(ss, chain);
    }
    assert |StationsOf(chain)| >= |chain|;
    PrefixCardinality(StationsOf(chain), |chain|);
    assert |ss| == |chain| by {
      SameElements(ss, chain);
    }
  }

  /** On a non-empty path, the first station is the only up-station that is
      no down-station, and the map has one entry per section. */
  lemma TopOfPath(ss: seq<Section>, chain: seq<Section>)
    requires PathOf(ss, chain) && chain != []
    ensures TopStations(SectionMap(ss)) == {StationsOf(chain)[0]}
    ensures |SectionMap(ss)| == |ss|
  {
    FirstIsTop(ss, chain);
    forall x | x in TopStations(SectionMap(ss))
      ensures x == StationsOf(chain)[0]
    {
      OnlyFirstIsTop(ss, chain, x);
    }
    MapSize(ss, chain);
  }

  /** Walking a map that sends each station of `p` to the next, from the
      first station for as many steps as the map has entries, lists `p`. */
  lemma WalkWhole(m: map<Station, Station>, p: seq<Station>, top: Station)
    requires p != [] && top == p[0] && |m| == |p| - 1
    requires forall i {:trigger Lookup(m, Some(p[i]))} :: 0 <= i < |p| - 1 ==> Lookup(m, Some(p[i])) == Some(p[i + 1])
    ensures Walk(m, top, |m|) == Present(p)
  {
    WalkAlong(m, p, |p| - 1);
    assert p[..|p|] == p;
  }

  /** The property of `getSortedStations` on a non-empty line that is one
      simple path: it starts at the first station and lists every station of
      the path, in travel order, once each (`|ss| + 1` stations). */
  lemma SortedStationsOfPath(ss: seq<Section>, chain: seq<Section>, top: Station)
    requires PathOf(ss, chain) && chain != []
    requires top in TopStations(SectionMap(ss))
    ensures top == StationsOf(chain)[0]
    ensures Walk(SectionMap(ss), top, |SectionMap(ss)|) == Present(StationsOf(chain))
    ensures |Present(StationsOf(chain))| == |ss| + 1
  {
    var p := StationsOf(chain);
    var m := SectionMap(ss);
    assert top == p[0] && |m| == |ss| by {
      TopOfPath(ss, chain);
    }
    assert |ss| == |chain| by {
      SameElements(ss, chain);
    }
    assert forall i {:trigger Lookup(m, Some(p[i]))} :: 0 <= i < |p| - 1 ==> Lookup(m, Some(p[i])) == Some(p[i + 1]) by {
      MapStepsOfPath(ss, chain);
    }
    WalkWhole(m, p, top);
  }
}
