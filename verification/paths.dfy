/** What the aggregate's operations mean for a line whose sections form one
    simple path. A section list `ss` is such a path when it is, up to order,
    a chain of sections in which each section starts where the previous one
    ends and no station is passed twice (`PathOf(ss, chain)`). */
module Paths {
  import opened Subway
  import opened SectionQueries
  import opened SectionsSpec

  // ---------------------------------------------------------------------
  // Chains and paths

  /** The stations a chain passes, from its first up-station to its last down-station. */
  function StationsOf(chain: seq<Section>): (p: seq<Station>)
    ensures chain == [] ==> p == []
    ensures chain != [] ==> |p| == |chain| + 1 && p[0] == chain[0].up
    ensures forall i {:trigger chain[i].down} :: 0 <= i < |chain| ==> p[i + 1] == chain[i].down
  {
    if chain == [] then []
    else [chain[0].up] + seq(|chain|, i requires 0 <= i < |chain| => chain[i].down)
  }

  /** Each section starts where the previous one ends. */
  ghost predicate Linked(chain: seq<Section>)
  {
    forall i {:trigger chain[i].up} :: 0 < i < |chain| ==> chain[i - 1].down == chain[i].up
  }

  ghost predicate Distinct(p: seq<Station>)
  {
    forall i, j :: 0 <= i < j < |p| ==> p[i] != p[j]
  }

  /** A chain that never passes the same station twice. */
  ghost predicate IsChain(chain: seq<Section>)
  {
    Linked(chain) && Distinct(StationsOf(chain))
  }

  /** `ss` holds exactly the sections of `chain`, in any order. */
  ghost predicate PathOf(ss: seq<Section>, chain: seq<Section>)
  {
    IsChain(chain) && multiset(ss) == multiset(chain)
  }

  /** The invariant the aggregate keeps: its sections form one simple path. */
  ghost predicate IsSimplePath(ss: seq<Section>)
  {
    exists chain :: PathOf(ss, chain)
  }

  /** `q` is `p` with one station that `p` does not pass put in somewhere. */
  ghost predicate OneStationAdded(p: seq<Station>, q: seq<Station>)
  {
    exists k :: 0 <= k < |q| && q[k] !in p && q[..k] + q[k + 1..] == p
  }

  /** The stations, each wrapped as a non-null list entry. */
  function Present(p: seq<Station>): (r: seq<Option<Station>>)
    ensures |r| == |p| && forall i :: 0 <= i < |p| ==> r[i] == Some(p[i])
  {
    seq(|p|, i requires 0 <= i < |p| => Some(p[i]))
  }

  // ---------------------------------------------------------------------
  // Basic facts about a path

  /** Every section of a path starts and ends at its place in the station list. */
  lemma ChainEnds(chain: seq<Section>)
    requires Linked(chain)
    ensures forall i {:trigger chain[i].up} :: 0 <= i < |chain| ==> chain[i].up == StationsOf(chain)[i]
  {
    forall i | 0 <= i < |chain|
      ensures chain[i].up == StationsOf(chain)[i]
    {
      if i > 0 {
        assert chain[i - 1].down == chain[i].up;
      }
    }
  }

  lemma SameElements(ss: seq<Section>, chain: seq<Section>)
    requires multiset(ss) == multiset(chain)
    ensures |ss| == |chain| && (ss == [] <==> chain == [])
    ensures forall s :: s in ss <==> s in chain
  {
    assert |multiset(ss)| == |multiset(chain)|;
    forall s
      ensures s in ss <==> s in chain
    {
      assert s in ss <==> s in multiset(ss);
      assert s in chain <==> s in multiset(chain);
    }
  }

  /** Each section of a path sits at one position of the chain. */
  lemma SectionPosition(ss: seq<Section>, chain: seq<Section>, s: Section) returns (k: int)
    requires PathOf(ss, chain) && s in ss
    ensures 0 <= k < |chain| && chain[k] == s
    ensures s.up == StationsOf(chain)[k] && s.down == StationsOf(chain)[k + 1]
  {
    SameElements(ss, chain);
    k :| 0 <= k < |chain| && chain[k] == s;
    ChainEnds(chain);
  }

  /** Each section of the chain is a section of the path. */
  lemma SectionOfPath(ss: seq<Section>, chain: seq<Section>, i: int)
    requires PathOf(ss, chain) && 0 <= i < |chain|
    ensures chain[i] in ss && chain[i].up == StationsOf(chain)[i] && chain[i].down == StationsOf(chain)[i + 1]
  {
    SameElements(ss, chain);
    ChainEnds(chain);
  }

  /** In a path, the section starting at the `i`-th station and the section
      ending at the `i+1`-th are both the `i`-th section of the chain. */
  lemma LookupAt(ss: seq<Section>, chain: seq<Section>, i: int)
    requires PathOf(ss, chain) && 0 <= i < |chain|
    ensures chain[i] in ss && chain[i].up == StationsOf(chain)[i]
    ensures FindByUpStation(ss, StationsOf(chain)[i]) == Some(chain[i])
    ensures FindByDownStation(ss, StationsOf(chain)[i + 1]) == Some(chain[i])
  {
    var p := StationsOf(chain);
    SectionOfPath(ss, chain, i);
    var u := FindByUpStation(ss, p[i]);
    var k := SectionPosition(ss, chain, u.value);
    assert p[k] == p[i];
    var d := FindByDownStation(ss, p[i + 1]);
    var m := SectionPosition(ss, chain, d.value);
    assert p[m + 1] == p[i + 1];
  }

  /** No section of a path starts at its last station or ends at its first. */
  lemma EndsOfPath(ss: seq<Section>, chain: seq<Section>)
    requires PathOf(ss, chain) && chain != []
    ensures FindByUpStation(ss, StationsOf(chain)[|chain|]).None?
    ensures FindByDownStation(ss, StationsOf(chain)[0]).None?
  {
    var p := StationsOf(chain);
    ChainEnds(chain);
    SameElements(ss, chain);
    forall s | s in ss
      ensures s.up != p[|chain|] && s.down != p[0]
    {
      var k :| 0 <= k < |chain| && chain[k] == s;
      assert s.up == p[k] && s.down == p[k + 1];
    }
  }

  /** A station is an endpoint of some section of a path exactly when the path passes it. */
  lemma OnLineIffOnPath(ss: seq<Section>, chain: seq<Section>, x: Station)
    requires PathOf(ss, chain)
    ensures IsStationOnLine(ss, x) <==> x in StationsOf(chain)
    ensures x !in StationsOf(chain) ==> FindByUpStation(ss, x).None? && FindByDownStation(ss, x).None?
  {
    if IsStationOnLine(ss, x) {
      OnLineIsOnPath(ss, chain, x);
    }
    if x in StationsOf(chain) {
      OnPathIsOnLine(ss, chain, x);
    }
  }

  lemma OnLineIsOnPath(ss: seq<Section>, chain: seq<Section>, x: Station)
    requires PathOf(ss, chain) && IsStationOnLine(ss, x)
    ensures x in StationsOf(chain)
  {
    var p := StationsOf(chain);
    ChainEnds(chain);
    SameElements(ss, chain);
    var s :| s in ss && (s.up == x || s.down == x);
    var k :| 0 <= k < |chain| && chain[k] == s;
    assert s.up == p[k] && s.down == p[k + 1];
  }

  lemma OnPathIsOnLine(ss: seq<Section>, chain: seq<Section>, x: Station)
    requires PathOf(ss, chain) && x in StationsOf(chain)
    ensures IsStationOnLine(ss, x)
  {
    var p := StationsOf(chain);
    ChainEnds(chain);
    SameElements(ss, chain);
    var k :| 0 <= k < |p| && p[k] == x;
    if k < |chain| {
      assert chain[k] in ss && chain[k].up == x;
    } else {
      assert chain[k - 1] in ss && chain[k - 1].down == x;
    }
  }


  // ---------------------------------------------------------------------
  // Sequence surgery on chains

  /** `q` is `p` with the new station `q[k]` put in at index `k`. */
  lemma AddedAt(p: seq<Station>, q: seq<Station>, k: int)
    requires 0 <= k < |q| && q[k] !in p && q[..k] + q[k + 1..] == p
    ensures OneStationAdded(p, q)
  {
  }

  lemma DistinctInsert(p: seq<Station>, k: int, x: Station)
    requires Distinct(p) && x !in p && 0 <= k <= |p|
    ensures Distinct(p[..k] + [x] + p[k..])
    ensures OneStationAdded(p, p[..k] + [x] + p[k..])
  {
    var q := p[..k] + [x] + p[k..];
    forall i, j | 0 <= i < j < |q|
      ensures q[i] != q[j]
    {
      if i < k {
        assert q[i] == p[i];
      } else if i > k {
        assert q[i] == p[i - 1];
      }
      if j < k {
        assert q[j] == p[j];
      } else if j > k {
        assert q[j] == p[j - 1];
      }
    }
    assert q[k] == x;
    assert q[..k] + q[k + 1..] == p by {
      assert q[..k] == p[..k] && q[k + 1..] == p[k..];
    }
    AddedAt(p, q, k);
  }

  lemma DistinctRemove(p: seq<Station>, k: int)
    requires Distinct(p) && 0 <= k < |p|
    ensures Distinct(p[..k] + p[k + 1..])
    ensures p[k] !in p[..k] + p[k + 1..]
    ensures OneStationAdded(p[..k] + p[k + 1..], p)
  {
    var q := p[..k] + p[k + 1..];
    assert forall i :: 0 <= i < k ==> q[i] == p[i];
    assert forall i :: k <= i < |q| ==> q[i] == p[i + 1];
    AddedAt(q, p, k);
  }

  /** Replacing the `i`-th section by two sections `a`, `b` through a new
      station keeps a chain, with that station inserted after the `i`-th. */
  lemma Split(chain: seq<Section>, i: int, a: Section, b: Section)
    requires IsChain(chain) && 0 <= i < |chain|
    requires a.up == chain[i].up && a.down == b.up && b.down == chain[i].down
    requires a.down !in StationsOf(chain)
    ensures IsChain(chain[..i] + [a, b] + chain[i + 1..])
    ensures StationsOf(chain[..i] + [a, b] + chain[i + 1..]) ==
            StationsOf(chain)[..i + 1] + [a.down] + StationsOf(chain)[i + 1..]
    ensures OneStationAdded(StationsOf(chain), StationsOf(chain[..i] + [a, b] + chain[i + 1..]))
  {
    SplitStations(chain, i, a, b);
    SplitLinked(chain, i, a, b);
    DistinctInsert(StationsOf(chain), i + 1, a.down);
  }

  lemma SplitStations(chain: seq<Section>, i: int, a: Section, b: Section)
    requires 0 <= i < |chain|
    requires a.up == chain[i].up && a.down == b.up && b.down == chain[i].down
    ensures StationsOf(chain[..i] + [a, b] + chain[i + 1..]) ==
            StationsOf(chain)[..i + 1] + [a.down] + StationsOf(chain)[i + 1..]
  {
    var p := StationsOf(chain);
    var c := chain[..i] + [a, b] + chain[i + 1..];
    var q := p[..i + 1] + [a.down] + p[i + 1..];
    var sc := StationsOf(c);
    assert |sc| == |q|;
    forall k | 0 <= k < |q|
      ensures sc[k] == q[k]
    {
      if k == 0 {
        assert sc[0] == c[0].up;
      } else if k - 1 < i {
        assert c[k - 1] == chain[k - 1];
        assert sc[k] == c[k - 1].down;
      } else if k - 1 == i {
        assert c[k - 1] == a;
        assert sc[k] == c[k - 1].down;
      } else if k - 1 == i + 1 {
        assert c[k - 1] == b;
        assert sc[k] == c[k - 1].down;
      } else {
        assert c[k - 1] == chain[k - 2];
        assert sc[k] == c[k - 1].down;
      }
    }
  }

  lemma SplitLinked(chain: seq<Section>, i: int, a: Section, b: Section)
    requires Linked(chain) && 0 <= i < |chain|
    requires a.up == chain[i].up && a.down == b.up && b.down == chain[i].down
    ensures Linked(chain[..i] + [a, b] + chain[i + 1..])
  {
    var c := chain[..i] + [a, b] + chain[i + 1..];
    forall k | 0 < k < |c|
      ensures c[k - 1].down == c[k].up
    {
      if k < i {
        assert c[k - 1] == chain[k - 1] && c[k] == chain[k];
        assert chain[k - 1].down == chain[k].up;
      } else if k == i {
        assert c[k - 1] == chain[i - 1] && c[k] == a;
        assert chain[i - 1].down == chain[i].up;
      } else if k == i + 1 {
        assert c[k - 1] == a && c[k] == b;
      } else if k == i + 2 {
        assert c[k - 1] == b && c[k] == chain[i + 1];
        assert chain[i].down == chain[i + 1].up;
      } else {
        assert c[k - 1] == chain[k - 2] && c[k] == chain[k - 1];
        assert chain[k - 2].down == chain[k - 1].up;
      }
    }
  }

  /** Replacing the sections `j-1` and `j` by one section `m` across them keeps
      a chain, with the `j`-th station left out. */
  lemma Merge(chain: seq<Section>, j: int, m: Section)
    requires IsChain(chain) && 0 < j < |chain|
    requires m.up == chain[j - 1].up && m.down == chain[j].down
    ensures IsChain(chain[..j - 1] + [m] + chain[j + 1..])
    ensures StationsOf(chain[..j - 1] + [m] + chain[j + 1..]) ==
            StationsOf(chain)[..j] + StationsOf(chain)[j + 1..]
  {
    MergeStations(chain, j, m);
    MergeLinked(chain, j, m);
    DistinctRemove(StationsOf(chain), j);
  }

  lemma MergeStations(chain: seq<Section>, j: int, m: Section)
    requires 0 < j < |chain|
    requires m.up == chain[j - 1].up && m.down == chain[j].down
    ensures StationsOf(chain[..j - 1] + [m] + chain[j + 1..]) ==
            StationsOf(chain)[..j] + StationsOf(chain)[j + 1..]
  {
    var p := StationsOf(chain);
    var c := chain[..j - 1] + [m] + chain[j + 1..];
    var q := p[..j] + p[j + 1..];
    var sc := StationsOf(c);
    assert |sc| == |q|;
    forall k | 0 <= k < |q|
      ensures sc[k] == q[k]
    {
      if k == 0 {
        assert sc[0] == c[0].up && q[0] == p[0];
      } else if k - 1 < j - 1 {
        assert c[k - 1] == chain[k - 1] && q[k] == p[k];
        assert sc[k] == c[k - 1].down;
      } else if k - 1 == j - 1 {
        assert c[k - 1] == m && q[k] == p[k + 1];
        assert sc[k] == c[k - 1].down;
      } else {
        assert c[k - 1] == chain[k] && q[k] == p[k + 1];
        assert sc[k] == c[k - 1].down;
      }
    }
  }

  lemma MergeLinked(chain: seq<Section>, j: int, m: Section)
    requires Linked(chain) && 0 < j < |chain|
    requires m.up == chain[j - 1].up && m.down == chain[j].down
    ensures Linked(chain[..j - 1] + [m] + chain[j + 1..])
  {
    var c := chain[..j - 1] + [m] + chain[j + 1..];
    forall k | 0 < k < |c|
      ensures c[k - 1].down == c[k].up
    {
      if k < j - 1 {
        assert c[k - 1] == chain[k - 1] && c[k] == chain[k];
        assert chain[k - 1].down == chain[k].up;
      } else if k == j - 1 {
        assert c[k - 1] == chain[k - 1] && c[k] == m;
        assert chain[k - 1].down == chain[k].up;
      } else if k == j {
        assert c[k - 1] == m && c[k] == chain[j + 1];
        assert chain[j].down == chain[j + 1].up;
      } else {
        assert c[k - 1] == chain[k] && c[k] == chain[k + 1];
        assert chain[k].down == chain[k + 1].up;
      }
    }
  }

  /** A section ending at the first station, from a station off the chain, extends it at the top. */
  lemma Prepend(chain: seq<Section>, a: Section)
    requires IsChain(chain) && chain != []
    requires a.down == chain[0].up && a.up !in StationsOf(chain)
    ensures IsChain([a] + chain)
    ensures StationsOf([a] + chain) == [a.up] + StationsOf(chain)
    ensures OneStationAdded(StationsOf(chain), StationsOf([a] + chain))
  {
    PrependStations(chain, a);
    PrependLinked(chain, a);
    DistinctCons(StationsOf(chain), a.up);
  }

  lemma DistinctCons(p: seq<Station>, x: Station)
    requires Distinct(p) && x !in p
    ensures Distinct([x] + p)
    ensures OneStationAdded(p, [x] + p)
  {
    var q := [x] + p;
    forall i, j | 0 <= i < j < |q|
      ensures q[i] != q[j]
    {
      assert q[j] == p[j - 1];
      if i > 0 {
        assert q[i] == p[i - 1];
      }
    }
    assert q[..0] + q[1..] == p by {
      assert q[1..] == p;
    }
    AddedAt(p, q, 0);
  }

  lemma PrependStations(chain: seq<Section>, a: Section)
    requires chain != [] && a.down == chain[0].up
    ensures StationsOf([a] + chain) == [a.up] + StationsOf(chain)
  {
    var p := StationsOf(chain);
    var c := [a] + chain;
    var sc := StationsOf(c);
    assert |sc| == |p| + 1;
    forall k | 0 <= k < |sc|
      ensures sc[k] == ([a.up] + p)[k]
    {
      if k == 0 {
        assert sc[0] == c[0].up;
      } else if k == 1 {
        assert sc[1] == c[0].down;
      } else {
        assert c[k - 1] == chain[k - 2];
        assert sc[k] == c[k - 1].down;
      }
    }
  }

  lemma PrependLinked(chain: seq<Section>, a: Section)
    requires Linked(chain) && chain != [] && a.down == chain[0].up
    ensures Linked([a] + chain)
  {
    var c := [a] + chain;
    forall k | 0 < k < |c|
      ensures c[k - 1].down == c[k].up
    {
      if k > 1 {
        assert c[k - 1] == chain[k - 2] && c[k] == chain[k - 1];
        assert chain[k - 2].down == chain[k - 1].up;
      }
    }
  }

  /** A section leaving the last station, to a station off the chain, extends it at the bottom. */
  lemma Append(chain: seq<Section>, a: Section)
    requires IsChain(chain) && chain != []
    requires a.up == StationsOf(chain)[|chain|] && a.down !in StationsOf(chain)
    ensures IsChain(chain + [a])
    ensures StationsOf(chain + [a]) == StationsOf(chain) + [a.down]
    ensures OneStationAdded(StationsOf(chain), StationsOf(chain + [a]))
  {
    var p := StationsOf(chain);
    var c := chain + [a];
    var sc := StationsOf(c);
    assert |sc| == |p| + 1;
    forall k | 0 <= k < |sc|
      ensures sc[k] == (p + [a.down])[k]
    {
      if k == 0 {
        assert sc[0] == c[0].up;
      } else {
        assert sc[k] == c[k - 1].down;
      }
    }
    assert sc == p + [a.down];
    forall k | 0 < k < |c|
      ensures c[k - 1].down == c[k].up
    {
      if k < |chain| {
        assert c[k - 1] == chain[k - 1] && c[k] == chain[k];
        assert chain[k - 1].down == chain[k].up;
      } else {
        assert c[k - 1] == chain[|chain| - 1];
      }
    }
    DistinctInsert(p, |p|, a.down);
    assert p[..|p|] + [a.down] + p[|p|..] == p + [a.down];
  }

  /** Dropping the first section of a chain of two or more leaves a chain without its first station. */
  lemma DropFirst(chain: seq<Section>)
    requires IsChain(chain) && |chain| >= 2
    ensures IsChain(chain[1..])
    ensures StationsOf(chain[1..]) == StationsOf(chain)[1..]
    ensures OneStationAdded(StationsOf(chain[1..]), StationsOf(chain))
  {
    var p := StationsOf(chain);
    var c := chain[1..];
    var sc := StationsOf(c);
    ChainEnds(chain);
    assert |sc| == |p| - 1;
    forall k | 0 <= k < |sc|
      ensures sc[k] == p[k + 1]
    {
      if k == 0 {
        assert sc[0] == chain[1].up;
      } else {
        assert c[k - 1] == chain[k];
        assert sc[k] == c[k - 1].down;
      }
    }
    assert sc == p[1..];
    forall k | 0 < k < |c|
      ensures c[k - 1].down == c[k].up
    {
      assert chain[k].down == chain[k + 1].up;
    }
    DistinctRemove(p, 0);
    assert p[..0] + p[1..] == p[1..];
  }

  /** Dropping the last section of a chain of two or more leaves a chain without its last station. */
  lemma DropLast(chain: seq<Section>)
    requires IsChain(chain) && |chain| >= 2
    ensures IsChain(chain[..|chain| - 1])
    ensures StationsOf(chain[..|chain| - 1]) == StationsOf(chain)[..|chain|]
    ensures OneStationAdded(StationsOf(chain[..|chain| - 1]), StationsOf(chain))
  {
    var p := StationsOf(chain);
    var c := chain[..|chain| - 1];
    var sc := StationsOf(c);
    assert |sc| == |p| - 1;
    forall k | 0 <= k < |sc|
      ensures sc[k] == p[k]
    {
      if k == 0 {
        assert sc[0] == chain[0].up;
      } else {
        assert c[k - 1] == chain[k - 1];
        assert sc[k] == c[k - 1].down;
      }
    }
    assert sc == p[..|chain|];
    forall k | 0 < k < |c|
      ensures c[k - 1].down == c[k].up
    {
      assert chain[k - 1].down == chain[k].up;
    }
    DistinctRemove(p, |chain|);
    assert p[..|chain|] + p[|chain| + 1..] == p[..|chain|];
  }

  /** Replacing the `i`-th element by `a`, `b` replaces it in the multiset. */
  lemma SpliceMultiset(chain: seq<Section>, i: int, a: Section, b: Section)
    requires 0 <= i < |chain|
    ensures multiset(chain[..i] + [a, b] + chain[i + 1..]) ==
            multiset(chain) - multiset{chain[i]} + multiset{a, b}
  {
    assert chain == chain[..i] + [chain[i]] + chain[i + 1..];
  }

  lemma TotalDistancePair(x: Section, y: Section)
    ensures TotalDistance([x, y]) == x.distance + y.distance
  {
    assert [x, y] == [x] + [y];
    TotalDistanceAppend([x], [y]);
  }
}
