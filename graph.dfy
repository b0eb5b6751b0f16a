/** The adjacency structure of the road network as a value: for each
    location name, a map from neighbour name to the segment data, together
    with the updates rede_viaria.py makes to it and the invariants they keep. */
module Graph {
  import opened Wrappers

  /** The data of one segment (`troço`): `{'distancia', 'media_veiculos'}`. */
  datatype Segment = Segment(distance: real, traffic: int)

  /** `adj[a][b]` is the segment stored from `a` to `b`. */
  type Adjacency = map<string, map<string, Segment>>

  /** The directed entry `adj[a][b]`, if any. */
  function Entry(adj: Adjacency, a: string, b: string): Option<Segment> {
    if a in adj && b in adj[a] then Some(adj[a][b]) else None
  }

  /** Every entry has its mirror image, carrying the same data. */
  ghost predicate Symmetric(adj: Adjacency) {
    forall a, b :: Entry(adj, a, b) == Entry(adj, b, a)
  }

  /** No location is its own neighbour. */
  ghost predicate Loopless(adj: Adjacency) {
    forall a :: Entry(adj, a, a) == None
  }

  /** Every name used in `adj`, as a key or as a neighbour, is in `names`. */
  ghost predicate NamesWithin(adj: Adjacency, names: set<string>) {
    && adj.Keys <= names
    && forall a, b :: Entry(adj, a, b).Some? ==> b in names
  }

  /** The three together: the shape the network keeps `adj` in. */
  ghost predicate WellFormed(adj: Adjacency, names: set<string>) {
    Symmetric(adj) && Loopless(adj) && NamesWithin(adj, names)
  }

  /** Every entry of `small` is an entry of `big`, with the same data. */
  ghost predicate Subgraph(small: Adjacency, big: Adjacency) {
    && small.Keys <= big.Keys
    && forall c, e :: Entry(small, c, e).Some? ==> Entry(big, c, e) == Entry(small, c, e)
  }

  /** `adj.setdefault(a, {})` and `adj.get(a, {})`. */
  function Row(adj: Adjacency, a: string): map<string, Segment> {
    if a in adj then adj[a] else map[]
  }

  /** `adicionar_troco`'s update: the same data stored under both directions,
      replacing any earlier segment between the two. */
  function Link(adj: Adjacency, a: string, b: string, s: Segment): (r: Adjacency)
    ensures Entry(r, a, b) == Some(s) && Entry(r, b, a) == Some(s)
    ensures r.Keys == adj.Keys + {a, b}
  {
    var first := adj[a := Row(adj, a)[b := s]];
    first[b := Row(first, b)[a := s]]
  }

  /** `del adj[a][b]`, guarded by `a in adj and b in adj[a]`. */
  function Drop(adj: Adjacency, a: string, b: string): Adjacency {
    if a in adj && b in adj[a] then adj[a := adj[a] - {b}] else adj
  }

  /** `remover_troco`'s update: each direction deleted if present. */
  function Unlink(adj: Adjacency, a: string, b: string): (r: Adjacency)
    ensures Entry(r, a, b) == None && Entry(r, b, a) == None
    ensures r.Keys == adj.Keys
  {
    Drop(Drop(adj, a, b), b, a)
  }

  /** `remover_local`'s update: `d` deleted from the row of each of its own
      neighbours, then its own row dropped. */
  function Detach(adj: Adjacency, d: string): (r: Adjacency)
    ensures r.Keys == adj.Keys - {d}
    ensures forall e :: Entry(r, d, e) == None
  {
    map v | v in adj && v != d :: if v in Row(adj, d) then adj[v] - {d} else adj[v]
  }

  /** A subgraph of a loopless graph over `names` is loopless and over `names`. */
  lemma SubgraphKeepsShape(small: Adjacency, big: Adjacency, names: set<string>)
    requires Subgraph(small, big)
    requires Loopless(big) && NamesWithin(big, names)
    ensures Loopless(small) && NamesWithin(small, names)
  {
    forall a
      ensures Entry(small, a, a) == None
    {
      if Entry(small, a, a).Some? {
        assert Entry(big, a, a) == Entry(small, a, a);
      }
    }
    forall a, b | Entry(small, a, b).Some?
      ensures b in names
    {
      assert Entry(big, a, b) == Entry(small, a, b);
    }
  }

  /** Giving a new name an empty row changes no entry. */
  lemma NewRowEntries(adj: Adjacency, n: string)
    requires n !in adj
    ensures forall c, e :: Entry(adj[n := map[]], c, e) == Entry(adj, c, e)
  {
  }

  /** After linking, both directions hold the new data; every other directed
      entry is what it was. */
  lemma LinkEntries(adj: Adjacency, a: string, b: string, s: Segment)
    ensures Entry(Link(adj, a, b, s), a, b) == Some(s)
    ensures Entry(Link(adj, a, b, s), b, a) == Some(s)
    ensures forall c, e :: (c != a || e != b) && (c != b || e != a) ==>
      Entry(Link(adj, a, b, s), c, e) == Entry(adj, c, e)
    ensures Link(adj, a, b, s).Keys == adj.Keys + {a, b}
  {
  }

  /** Linking two distinct known names keeps the adjacency well formed. */
  lemma LinkWellFormed(adj: Adjacency, names: set<string>, a: string, b: string, s: Segment)
    requires WellFormed(adj, names)
    requires a in names && b in names && a != b
    ensures WellFormed(Link(adj, a, b, s), names)
  {
    var l := Link(adj, a, b, s);
    LinkEntries(adj, a, b, s);
    forall c, e
      ensures Entry(l, c, e) == Entry(l, e, c)
    {
      if (c != a || e != b) && (c != b || e != a) {
        assert Entry(l, c, e) == Entry(adj, c, e);
        assert Entry(l, e, c) == Entry(adj, e, c);
      }
    }
    forall c
      ensures Entry(l, c, c) == None
    {
      assert Entry(l, c, c) == Entry(adj, c, c);
    }
    forall c, e | Entry(l, c, e).Some?
      ensures e in names
    {
      if (c != a || e != b) && (c != b || e != a) {
        assert Entry(l, c, e) == Entry(adj, c, e);
      }
    }
  }

  lemma DropEntries(adj: Adjacency, a: string, b: string)
    ensures Drop(adj, a, b).Keys == adj.Keys
    ensures Entry(Drop(adj, a, b), a, b) == None
    ensures forall c, e :: c != a || e != b ==> Entry(Drop(adj, a, b), c, e) == Entry(adj, c, e)
  {
  }

  /** After unlinking, neither direction is present; every other directed
      entry is what it was, and no row disappears. */
  lemma UnlinkEntries(adj: Adjacency, a: string, b: string)
    ensures Entry(Unlink(adj, a, b), a, b) == None
    ensures Entry(Unlink(adj, a, b), b, a) == None
    ensures forall c, e :: (c != a || e != b) && (c != b || e != a) ==>
      Entry(Unlink(adj, a, b), c, e) == Entry(adj, c, e)
    ensures Unlink(adj, a, b).Keys == adj.Keys
    ensures Subgraph(Unlink(adj, a, b), adj)
  {
    DropEntries(adj, a, b);
    DropEntries(Drop(adj, a, b), b, a);
  }

  /** Unlinking keeps the adjacency well formed. */
  lemma UnlinkWellFormed(adj: Adjacency, names: set<string>, a: string, b: string)
    requires WellFormed(adj, names)
    ensures WellFormed(Unlink(adj, a, b), names)
  {
    var u := Unlink(adj, a, b);
    UnlinkEntries(adj, a, b);
    forall c, e
      ensures Entry(u, c, e) == Entry(u, e, c)
    {
      if (c != a || e != b) && (c != b || e != a) {
        assert Entry(u, c, e) == Entry(adj, c, e);
        assert Entry(u, e, c) == Entry(adj, e, c);
      }
    }
    SubgraphKeepsShape(u, adj, names);
  }

  /** After detaching `d`, its row is gone, none of its former neighbours
      still lists it, and every entry not incident to `d` is what it was. */
  lemma DetachEntries(adj: Adjacency, d: string)
    ensures Detach(adj, d).Keys == adj.Keys - {d}
    ensures forall e :: Entry(Detach(adj, d), d, e) == None
    ensures forall v :: Entry(adj, d, v).Some? ==> Entry(Detach(adj, d), v, d) == None
    ensures forall c, e :: c != d && e != d ==> Entry(Detach(adj, d), c, e) == Entry(adj, c, e)
    ensures Subgraph(Detach(adj, d), adj)
  {
  }

  /** With a symmetric adjacency every row that listed `d` was a neighbour's,
      so after detaching no row mentions `d` at all, and the adjacency stays
      well formed over the remaining names. */
  lemma DetachWellFormed(adj: Adjacency, names: set<string>, d: string)
    requires WellFormed(adj, names)
    ensures forall v :: Entry(Detach(adj, d), v, d) == None
    ensures WellFormed(Detach(adj, d), names - {d})
  {
    var r := Detach(adj, d);
    DetachEntries(adj, d);
    forall v
      ensures Entry(r, v, d) == None
    {
      if Entry(adj, v, d).Some? {
        assert Entry(adj, d, v) == Entry(adj, v, d);
      } else if v in r {
        assert Entry(r, v, d) == None;
      }
    }
    forall c, e
      ensures Entry(r, c, e) == Entry(r, e, c)
    {
      if c != d && e != d {
        assert Entry(r, c, e) == Entry(adj, c, e);
        assert Entry(r, e, c) == Entry(adj, e, c);
      }
    }
    SubgraphKeepsShape(r, adj, names);
    forall c, e | Entry(r, c, e).Some?
      ensures e in names - {d}
    {
    }
  }
}
