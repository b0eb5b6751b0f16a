/** `RedeViaria`: the road network as an undirected graph held in two
    dictionaries that its methods update in place (rede_viaria.py). */
module Network {
  import opened Wrappers
  import opened Text
  import opened Geo
  import opened Seqs
  import opened Places
  import opened Sorting
  import opened Graph

  /** Every stored segment carries non-negative traffic and is at least as
      long as the great-circle distance between its two ends. */
  ghost predicate SegmentsSound(adj: Adjacency, locais: map<string, Location>, geo: Distance) {
    forall a, b :: Entry(adj, a, b).Some? && a in locais && b in locais ==>
      Entry(adj, a, b).value.traffic >= 0 && Entry(adj, a, b).value.distance >= geo(locais[a].coords, locais[b].coords)
  }

  /** `tuple(sorted((a, b)))`: the two names in ascending order, the key
      under which a segment is listed once. */
  function UnorderedPair(a: string, b: string): (string, string) {
    if Less(b, a) then (b, a) else (a, b)
  }

  /** The sorted pair holds the same two names, the smaller one first. */
  lemma UnorderedPairSorted(a: string, b: string)
    ensures {UnorderedPair(a, b).0, UnorderedPair(a, b).1} == {a, b}
    ensures !Less(UnorderedPair(a, b).1, UnorderedPair(a, b).0)
  {
    LessAsymmetric(b, a);
  }

  /** Two sorted pairs coincide exactly when they name the same two ends. */
  lemma UnorderedPairIdentifies(a: string, b: string, c: string, e: string)
    ensures UnorderedPair(a, b) == UnorderedPair(c, e) <==> {a, b} == {c, e}
  {
    LessTotal(a, b);
    LessAsymmetric(a, b);
    LessTotal(c, e);
    LessAsymmetric(c, e);
    if {a, b} == {c, e} {
      assert a in {c, e} && b in {c, e} && c in {a, b} && e in {a, b};
    }
  }

  /** The sorted pairs of a list of `(origem, destino, dados)` entries. */
  function PairsOf(r: seq<(string, string, Segment)>): set<(string, string)> {
    if r == [] then {} else PairsOf(r[..|r| - 1]) + {UnorderedPair(r[|r| - 1].0, r[|r| - 1].1)}
  }

  lemma {:induction false} PairsOfIff(r: seq<(string, string, Segment)>, p: (string, string))
    ensures p in PairsOf(r) <==> exists i :: 0 <= i < |r| && UnorderedPair(r[i].0, r[i].1) == p
  {
    if r != [] {
      var init := r[..|r| - 1];
      PairsOfIff(init, p);
      if exists i :: 0 <= i < |init| && UnorderedPair(init[i].0, init[i].1) == p {
        var i :| 0 <= i < |init| && UnorderedPair(init[i].0, init[i].1) == p;
        assert r[i] == init[i];
      }
      if exists i :: 0 <= i < |r| && UnorderedPair(r[i].0, r[i].1) == p {
        var i :| 0 <= i < |r| && UnorderedPair(r[i].0, r[i].1) == p;
        if i < |init| {
          assert init[i] == r[i];
        }
      }
    }
  }

  /** The filters of `pesquisar_locais`, each applied only when its argument
      is given and non-empty (`raio_km` defaults to 5.0 in the source). */
  datatype Query = Query(
    name: Option<string>,
    district: Option<string>,
    keyword: Option<string>,
    point: Option<Coords>,
    radius: real)

  /** Python truthiness of an optional `str`: present and non-empty. */
  predicate Given(o: Option<string>) {
    o.Some? && o.value != ""
  }

  /** A location passes every filter of the query: name by lower-case
      substring, parish by lower-case equality, keyword by lower-case
      membership, and proximity by distance at most the radius, inclusive. */
  predicate Matches(l: Location, q: Query, geo: Distance)
    reads l
  {
    && (Given(q.name) ==> Contains(Lower(l.name), Lower(q.name.value)))
    && (Given(q.district) ==> Lower(q.district.value) == Lower(l.district))
    && (Given(q.keyword) ==> Lower(q.keyword.value) in l.keywords)
    && (q.point.Some? ==> geo(q.point.value, l.coords) <= q.radius)
  }

  /** No filter given: `pesquisar_locais()` with its defaults. */
  predicate Unfiltered(q: Query) {
    !Given(q.name) && !Given(q.district) && !Given(q.keyword) && q.point.None?
  }

  /** The list comprehensions of `pesquisar_locais`, applied one after the
      other: they keep, in order, the locations passing every filter. */
  function Select(s: seq<Location>, q: Query, geo: Distance): (r: seq<Location>)
    reads s
    ensures forall i :: 0 <= i < |r| ==> r[i] in s && Matches(r[i], q, geo)
    ensures forall i :: 0 <= i < |s| && Matches(s[i], q, geo) ==> s[i] in r
    ensures Distinct(s) ==> Distinct(r)
    ensures (forall i :: 0 <= i < |s| ==> Matches(s[i], q, geo)) ==> r == s
  {
    if s == [] then []
    else
      var rest := Select(s[1..], q, geo);
      assert Distinct(s) ==> s[0] !in rest;
      if Matches(s[0], q, geo) then [s[0]] + rest else rest
  }

  /** The `(origem, destino, veiculos)` triples of a segment listing. */
  function Triples(listed: seq<(string, string, Segment)>): seq<Ranked> {
    seq(|listed|, k requires 0 <= k < |listed| => Ranked(listed[k].0, listed[k].1, listed[k].2.traffic))
  }

  /** Any reordering of the triples of a complete, valid segment listing
      still names stored segments with their traffic and covers every one. */
  lemma RankingFromListing(adj: Adjacency, listed: seq<(string, string, Segment)>, r: seq<Ranked>)
    requires forall k :: 0 <= k < |listed| ==> Entry(adj, listed[k].0, listed[k].1) == Some(listed[k].2)
    requires forall a, b :: a in adj && b in adj[a] ==>
      exists k :: 0 <= k < |listed| && {listed[k].0, listed[k].1} == {a, b}
    requires forall x :: x in r <==> x in Triples(listed)
    ensures forall i :: 0 <= i < |r| ==>
      Entry(adj, r[i].from, r[i].to).Some? && Entry(adj, r[i].from, r[i].to).value.traffic == r[i].traffic
    ensures forall a, b :: a in adj && b in adj[a] ==>
      exists i :: 0 <= i < |r| && {r[i].from, r[i].to} == {a, b}
  {
    var triples := Triples(listed);
    forall i | 0 <= i < |r|
      ensures Entry(adj, r[i].from, r[i].to).Some? && Entry(adj, r[i].from, r[i].to).value.traffic == r[i].traffic
    {
      assert r[i] in triples;
      var k :| 0 <= k < |triples| && triples[k] == r[i];
    }
    forall a, b | a in adj && b in adj[a]
      ensures exists i :: 0 <= i < |r| && {r[i].from, r[i].to} == {a, b}
    {
      var k :| 0 <= k < |listed| && {listed[k].0, listed[k].1} == {a, b};
      assert triples[k] in r;
      var i :| 0 <= i < |r| && r[i] == triples[k];
    }
  }

  /** The invariant `RedeViaria` keeps: each location is stored under its
      own name; `adj` has a row for exactly the known names, is symmetric,
      has no self-loops and mentions only known names; every segment passed
      the validation of `adicionar_troco`. */
  ghost predicate Consistent(locais: map<string, Location>, adj: Adjacency, geo: Distance) {
    && SymmetricDistance(geo)
    && (forall n :: n in locais ==> locais[n].name == n)
    && adj.Keys == locais.Keys
    && WellFormed(adj, locais.Keys)
    && SegmentsSound(adj, locais, geo)
  }

  /** Removing entries never breaks the validation of the ones left. */
  lemma SubgraphSound(small: Adjacency, big: Adjacency, locais: map<string, Location>, geo: Distance)
    requires Subgraph(small, big) && SegmentsSound(big, locais, geo)
    ensures SegmentsSound(small, locais, geo)
  {
  }

  /** Adding a location under a new name, with an empty row, keeps the invariant. */
  lemma AddLocationConsistent(locais: map<string, Location>, adj: Adjacency, geo: Distance, l: Location)
    requires Consistent(locais, adj, geo)
    requires l.name !in locais
    ensures Consistent(locais[l.name := l], adj[l.name := map[]], geo)
  {
    var locais': map<string, Location>, adj': Adjacency := locais[l.name := l], adj[l.name := map[]];
    NewRowEntries(adj, l.name);
    forall a, b
      ensures Entry(adj', a, b) == Entry(adj', b, a)
    {
      assert Entry(adj, a, b) == Entry(adj, b, a);
    }
    forall a
      ensures Entry(adj', a, a) == None
    {
      assert Entry(adj, a, a) == None;
    }
    forall a, b | Entry(adj', a, b).Some?
      ensures b in locais'.Keys
    {
      assert Entry(adj, a, b) == Entry(adj', a, b);
    }
    assert WellFormed(adj', locais'.Keys);
    assert adj'.Keys == locais'.Keys;
    assert forall n :: n in locais' ==> locais'[n].name == n;
    forall a, b | Entry(adj', a, b).Some? && a in locais' && b in locais'
      ensures Entry(adj', a, b).value.traffic >= 0
      ensures Entry(adj', a, b).value.distance >= geo(locais'[a].coords, locais'[b].coords)
    {
      assert Entry(adj, a, b) == Entry(adj', a, b);
      assert a in locais && b in locais;
    }
  }

  /** Detaching a known location and forgetting it keeps the invariant. */
  lemma RemoveLocationConsistent(locais: map<string, Location>, adj: Adjacency, geo: Distance, d: string)
    requires Consistent(locais, adj, geo)
    ensures Consistent(locais - {d}, Detach(adj, d), geo)
  {
    DetachWellFormed(adj, locais.Keys, d);
    DetachEntries(adj, d);
    var adj': Adjacency := Detach(adj, d);
    forall a, b | Entry(adj', a, b).Some? && a in locais - {d} && b in locais - {d}
      ensures Entry(adj', a, b).value.traffic >= 0
      ensures Entry(adj', a, b).value.distance >= geo((locais - {d})[a].coords, (locais - {d})[b].coords)
    {
      assert Entry(adj, a, b) == Entry(adj', a, b);
    }
  }

  /** Linking two distinct known names with a segment that passes the
      validation keeps the invariant. */
  lemma AddSegmentConsistent(locais: map<string, Location>, adj: Adjacency, geo: Distance,
                             d1: string, d2: string, s: Segment)
    requires Consistent(locais, adj, geo)
    requires d1 in locais && d2 in locais && d1 != d2
    requires s.traffic >= 0 && s.distance >= geo(locais[d1].coords, locais[d2].coords)
    ensures Consistent(locais, Link(adj, d1, d2, s), geo)
  {
    var adj': Adjacency := Link(adj, d1, d2, s);
    LinkWellFormed(adj, locais.Keys, d1, d2, s);
    LinkEntries(adj, d1, d2, s);
    forall a, b | Entry(adj', a, b).Some? && a in locais && b in locais
      ensures Entry(adj', a, b).value.traffic >= 0
      ensures Entry(adj', a, b).value.distance >= geo(locais[a].coords, locais[b].coords)
    {
      if (a != d1 || b != d2) && (a != d2 || b != d1) {
        assert Entry(adj, a, b) == Entry(adj', a, b);
      }
    }
  }

  /** Unlinking any two names keeps the invariant. */
  lemma RemoveSegmentConsistent(locais: map<string, Location>, adj: Adjacency, geo: Distance, d1: string, d2: string)
    requires Consistent(locais, adj, geo)
    ensures Consistent(locais, Unlink(adj, d1, d2), geo)
  {
    UnlinkWellFormed(adj, locais.Keys, d1, d2);
    UnlinkEntries(adj, d1, d2);
    SubgraphSound(Unlink(adj, d1, d2), adj, locais, geo);
  }

  /** Reordering a list of triples with pairwise different ends keeps the
      ends pairwise different and keeps the same triples. */
  lemma PermutationKeepsPairs(t: seq<Ranked>, r: seq<Ranked>)
    requires multiset(t) == multiset(r)
    requires forall i, j :: 0 <= i < j < |t| ==> {t[i].from, t[i].to} != {t[j].from, t[j].to}
    ensures forall i, j :: 0 <= i < j < |r| ==> {r[i].from, r[i].to} != {r[j].from, r[j].to}
    ensures forall x :: x in r <==> x in t
  {
    assert Distinct(t);
    PermutationKeepsDistinct(t, r);
    forall x
      ensures x in r <==> x in t
    {
      assert x in r <==> x in multiset(r);
      assert x in t <==> x in multiset(t);
    }
    forall i, j | 0 <= i < j < |r|
      ensures {r[i].from, r[i].to} != {r[j].from, r[j].to}
    {
      assert r[i] in t && r[j] in t;
      var ki :| 0 <= ki < |t| && t[ki] == r[i];
      var kj :| 0 <= kj < |t| && t[kj] == r[j];
      assert ki != kj;
    }
  }

  class RoadNetwork {
    /** `calcular_distancia_geografica`, the Haversine distance. */
    const geo: Distance
    /** `locais`: name to location. */
    var locais: map<string, Location>
    /** `adj`: name to (neighbour name to segment). */
    var adj: Adjacency

    /** The invariant `Consistent` on the two dictionaries. */
    ghost predicate Valid()
      reads this
    {
      Consistent(locais, adj, geo)
    }

    /** `RedeViaria()`: an empty network. */
    constructor (geo: Distance)
      requires SymmetricDistance(geo)
      ensures Valid()
      ensures this.geo == geo && locais == map[] && adj == map[]
    {
      this.geo := geo;
      locais := map[];
      adj := map[];
    }

    /** `adicionar_local`: refuses a name already used as a key (compared
        exactly, case included); otherwise stores the location and gives it
        an empty row. */
    method AddLocation(l: Location) returns (ok: bool)
      requires Valid()
      modifies this`locais, this`adj
      ensures Valid()
      ensures ok <==> l.name !in old(locais)
      ensures locais == if ok then old(locais)[l.name := l] else old(locais)
      ensures adj == if ok then old(adj)[l.name := map[]] else old(adj)
    {
      if l.name in locais {
        return false;
      }
      AddLocationConsistent(locais, adj, geo, l);
      locais := locais[l.name := l];
      adj := adj[l.name := map[]];
      ok := true;
    }

    /** `remover_local`: refuses an unknown name; otherwise deletes the name
        from the row of each of its neighbours, then its own row and the
        location. */
    method RemoveLocation(d: string) returns (ok: bool)
      requires Valid()
      modifies this`locais, this`adj
      ensures Valid()
      ensures ok <==> d in old(locais)
      ensures locais == old(locais) - {d}
      ensures adj == if ok then Detach(old(adj), d) else old(adj)
      ensures forall v :: Entry(adj, v, d) == None
    {
      if d !in locais {
        return false;
      }
      ghost var start := adj;
      var pending := Row(adj, d).Keys;
      ghost var neighbours := pending;
      while pending != {}
        invariant locais == old(locais)
        invariant pending <= neighbours
        invariant adj.Keys == start.Keys
        invariant forall v :: v in adj ==>
          adj[v] == if v in neighbours - pending then start[v] - {d} else start[v]
        decreases pending
      {
        var v :| v in pending;
        if v in adj && d in adj[v] {
          adj := adj[v := adj[v] - {d}];
        } else if v in adj {
          assert adj[v] - {d} == adj[v];
        }
        pending := pending - {v};
      }
      if d in adj {
        adj := adj - {d};
      }
      locais := locais - {d};
      ok := true;
      assert adj == Detach(start, d);
      RemoveLocationConsistent(old(locais), start, geo, d);
      DetachWellFormed(start, old(locais).Keys, d);
    }

    /** `consultar_local`: the location stored under exactly this name. */
    function GetLocation(d: string): (r: Option<Location>)
      reads this
      requires Valid()
      ensures r.Some? <==> d in locais
      ensures r.Some? ==> r.value == locais[d] && r.value.name == d
    {
      if d in locais then Some(locais[d]) else None
    }

    /** `listar_todos_locais`: every stored location once, in no particular order. */
    method ListLocations() returns (r: seq<Location>)
      requires Valid()
      ensures |r| == |locais|
      ensures forall l :: l in r <==> l in locais.Values
      ensures Distinct(r)
    {
      r := [];
      var rest := locais.Keys;
      while rest != {}
        invariant rest <= locais.Keys
        invariant |r| + |rest| == |locais.Keys|
        invariant forall i :: 0 <= i < |r| ==> r[i].name in locais && r[i].name !in rest && locais[r[i].name] == r[i]
        invariant forall n :: n in locais && n !in rest ==> locais[n] in r
        invariant Distinct(r)
        decreases rest
      {
        var n :| n in rest;
        r := r + [locais[n]];
        rest := rest - {n};
      }
      assert |locais.Keys| == |locais|;
    }

    /** `adicionar_troco`: refuses an unknown end, a self-loop, negative
        traffic, or a distance shorter than the great-circle distance;
        otherwise stores the same segment under both directions, replacing
        any earlier one. */
    method AddSegment(d1: string, d2: string, distance: real, traffic: int) returns (ok: bool)
      requires Valid()
      modifies this`adj
      ensures Valid()
      ensures ok <==>
        && d1 in locais && d2 in locais
        && d1 != d2
        && traffic >= 0
        && distance >= geo(locais[d1].coords, locais[d2].coords)
      ensures adj == if ok then Link(old(adj), d1, d2, Segment(distance, traffic)) else old(adj)
      ensures ok ==> GetSegment(d1, d2) == GetSegment(d2, d1) == Some(Segment(distance, traffic))
    {
      if d1 !in locais || d2 !in locais {
        return false;
      }
      if d1 == d2 {
        return false;
      }
      if traffic < 0 {
        return false;
      }
      var local1 := locais[d1];
      var local2 := locais[d2];
      var geoDistance := geo(local1.coords, local2.coords);
      if distance < geoDistance {
        return false;
      }
      var s := Segment(distance, traffic);
      AddSegmentConsistent(locais, adj, geo, d1, d2, s);
      LinkEntries(adj, d1, d2, s);
      adj := adj[d1 := Row(adj, d1)[d2 := s]];
      adj := adj[d2 := Row(adj, d2)[d1 := s]];
      ok := true;
    }

    /** `remover_troco`: deletes each direction that is present; succeeds
        when at least one was. */
    method RemoveSegment(d1: string, d2: string) returns (ok: bool)
      requires Valid()
      modifies this`adj
      ensures Valid()
      ensures ok <==> Entry(old(adj), d1, d2).Some? || Entry(old(adj), d2, d1).Some?
      ensures adj == Unlink(old(adj), d1, d2)
      ensures GetSegment(d1, d2) == None && GetSegment(d2, d1) == None
    {
      ghost var start := adj;
      RemoveSegmentConsistent(locais, adj, geo, d1, d2);
      UnlinkEntries(adj, d1, d2);
      var removed := false;
      if d1 in adj && d2 in adj[d1] {
        adj := adj[d1 := adj[d1] - {d2}];
        removed := true;
      }
      assert adj == Drop(start, d1, d2);
      if d2 in adj && d1 in adj[d2] {
        adj := adj[d2 := adj[d2] - {d1}];
        removed := true;
      }
      assert adj == Unlink(start, d1, d2);
      ok := removed;
    }

    /** `consultar_troco`: the segment between the two names, looked up in
        either direction; in a valid network both directions agree. */
    function GetSegment(d1: string, d2: string): (r: Option<Segment>)
      reads this
      ensures r.Some? <==> Entry(adj, d1, d2).Some? || Entry(adj, d2, d1).Some?
      ensures Entry(adj, d1, d2).Some? ==> r == Entry(adj, d1, d2)
      ensures Entry(adj, d1, d2).None? ==> r == Entry(adj, d2, d1)
      ensures Symmetric(adj) ==> r == Entry(adj, d1, d2) && r == Entry(adj, d2, d1)
    {
      if d1 in adj && d2 in adj[d1] then Some(adj[d1][d2])
      else if d2 in adj && d1 in adj[d2] then Some(adj[d2][d1])
      else None
    }

    /** `listar_todos_trocos`: each stored entry is listed with its data, no
        two listed entries join the same pair of locations, and every stored
        segment's pair is listed. */
    method ListSegments() returns (r: seq<(string, string, Segment)>)
      ensures forall i :: 0 <= i < |r| ==> Entry(adj, r[i].0, r[i].1) == Some(r[i].2)
      ensures forall i, j :: 0 <= i < j < |r| ==> {r[i].0, r[i].1} != {r[j].0, r[j].1}
      ensures forall a, b :: a in adj && b in adj[a] ==>
        exists i :: 0 <= i < |r| && {r[i].0, r[i].1} == {a, b}
    {
      r := [];
      var g := adj;  // the adjacency being walked; nothing here changes it
      var visited: set<(string, string)> := {};
      var origins := g.Keys;
      while origins != {}
        invariant origins <= g.Keys
        invariant visited == PairsOf(r)
        invariant forall i :: 0 <= i < |r| ==> Entry(g, r[i].0, r[i].1) == Some(r[i].2)
        invariant forall i, j :: 0 <= i < j < |r| ==>
          UnorderedPair(r[i].0, r[i].1) != UnorderedPair(r[j].0, r[j].1)
        invariant forall a, b :: a in g && a !in origins && b in g[a] ==> UnorderedPair(a, b) in visited
        decreases origins
      {
        var origem :| origem in origins;
        var vizinhos := g[origem];
        var destinos := vizinhos.Keys;
        while destinos != {}
          invariant destinos <= vizinhos.Keys
          invariant visited == PairsOf(r)
          invariant forall i :: 0 <= i < |r| ==> Entry(g, r[i].0, r[i].1) == Some(r[i].2)
          invariant forall i, j :: 0 <= i < j < |r| ==>
            UnorderedPair(r[i].0, r[i].1) != UnorderedPair(r[j].0, r[j].1)
          invariant forall a, b :: a in g && a !in origins && b in g[a] ==> UnorderedPair(a, b) in visited
          invariant forall b :: b in vizinhos && b !in destinos ==> UnorderedPair(origem, b) in visited
          decreases destinos
        {
          var destino :| destino in destinos;
          var par := UnorderedPair(origem, destino);
          if par !in visited {
            forall i | 0 <= i < |r|
              ensures UnorderedPair(r[i].0, r[i].1) != par
            {
              PairsOfIff(r, UnorderedPair(r[i].0, r[i].1));
            }
            var e := (origem, destino, vizinhos[destino]);
            assert (r + [e])[..|r|] == r;
            r := r + [e];
            visited := visited + {par};
          }
          destinos := destinos - {destino};
        }
        origins := origins - {origem};
      }
      forall i, j | 0 <= i < j < |r|
        ensures {r[i].0, r[i].1} != {r[j].0, r[j].1}
      {
        UnorderedPairIdentifies(r[i].0, r[i].1, r[j].0, r[j].1);
      }
      forall a, b | a in g && b in g[a]
        ensures exists i :: 0 <= i < |r| && {r[i].0, r[i].1} == {a, b}
      {
        PairsOfIff(r, UnorderedPair(a, b));
        var i :| 0 <= i < |r| && UnorderedPair(r[i].0, r[i].1) == UnorderedPair(a, b);
        UnorderedPairIdentifies(r[i].0, r[i].1, a, b);
      }
    }

    /** `pesquisar_locais`: exactly the stored locations passing every given
        filter, each once, in ascending case-insensitive name order (sorted
        by the insertion sort). */
    method Search(q: Query) returns (r: seq<Location>)
      requires Valid()
      ensures forall l :: l in r <==> l in locais.Values && Matches(l, q, geo)
      ensures SortedByName(r)
      ensures Distinct(r)
      ensures Unfiltered(q) ==> |r| == |locais|
    {
      var all := ListLocations();
      var matched := Select(all, q, geo);
      r := InsertionSortLocations(matched);
      SortByNamePermutes(matched);
      SortByNameSorted(matched);
      PermutationKeepsDistinct(matched, r);
      assert |r| == |multiset(r)| == |multiset(matched)| == |matched|;
      forall l
        ensures l in r <==> l in matched
      {
        assert l in r <==> l in multiset(r);
      }
    }

    /** `consultar_trocos_mais_circulacao`: one `(origem, destino, veiculos)`
        triple per stored segment, carrying that segment's traffic, sorted by
        the merge sort into non-increasing traffic. */
    method RankByTraffic() returns (r: seq<Ranked>)
      ensures Ordered(r, true)
      ensures forall i :: 0 <= i < |r| ==>
        Entry(adj, r[i].from, r[i].to).Some? && Entry(adj, r[i].from, r[i].to).value.traffic == r[i].traffic
      ensures forall i, j :: 0 <= i < j < |r| ==> {r[i].from, r[i].to} != {r[j].from, r[j].to}
      ensures forall a, b :: a in adj && b in adj[a] ==>
        exists i :: 0 <= i < |r| && {r[i].from, r[i].to} == {a, b}
    {
      var listed := ListSegments();
      var triples := Triples(listed);
      r := MergeSortTrocos(triples, true);
      MergeSortCorrect(triples, true);
      PermutationKeepsPairs(triples, r);
      RankingFromListing(adj, listed, r);
    }
  }
}
