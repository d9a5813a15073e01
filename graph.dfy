/**
 * The transit network: stations, the catalog keyed by station id, directed
 * edges tagged line/transfer, and the start-up construction of the edge list
 * (main.py, lines 22-118).
 */
module Graph {

  type Id = string
  type LineId = string

  datatype Option<T> = None | Some(value: T)

  /** A schematic plane position (not geographic). */
  datatype Point = Point(x: real, y: real)

  /** A station as the router sees it. Name, colour and the accessibility flag play no part in routing. */
  datatype Station = Station(id: Id, line: LineId, pos: Point)

  /** The edge tag the source writes as the strings 'line' and 'transfer'. */
  datatype Kind = Line | Transfer

  datatype Edge = Edge(from: Id, to: Id, kind: Kind)

  type Catalog = map<Id, Station>

  /** The read-only snapshot every request is computed against. */
  datatype Network = Network(stations: Catalog, edges: seq<Edge>)
  {
    /** Every edge endpoint is a catalogued station (the source looks both up without a guard). */
    predicate WellFormed() {
      EdgesKnown(stations, edges)
    }
  }

  /** Each catalog entry is stored under its own id, as the comprehension builds it. */
  predicate Keyed(cat: Catalog) {
    forall id :: id in cat ==> cat[id].id == id
  }

  predicate EdgesKnown(cat: Catalog, es: seq<Edge>) {
    forall i :: 0 <= i < |es| ==> es[i].from in cat && es[i].to in cat
  }

  function Mirror(e: Edge): Edge {
    Edge(e.to, e.from, e.kind)
  }

  /** No edge exists in only one direction. */
  predicate Symmetric(es: seq<Edge>) {
    forall i :: 0 <= i < |es| ==> Mirror(es[i]) in es
  }

  // ---------------------------------------------------------------
  // The catalog: {s.id: s for s in STATIONS}
  // ---------------------------------------------------------------

  /** True when no later station in `stations` reuses the id of `stations[i]`. */
  predicate LastWithId(stations: seq<Station>, i: int)
    requires 0 <= i < |stations|
  {
    forall j :: i < j < |stations| ==> stations[j].id != stations[i].id
  }

  /**
   * The id-keyed catalog built by a dictionary comprehension: one entry per
   * distinct id, each entry a listed station carrying that id.
   */
  function CatalogOf(stations: seq<Station>): (cat: Catalog)
    ensures cat.Keys == set s | s in stations :: s.id
    ensures Keyed(cat)
    ensures forall id :: id in cat ==> cat[id] in stations
  {
    if stations == [] then map[]
    else
      var s := stations[|stations| - 1];
      var cat := CatalogOf(stations[..|stations| - 1]);
      assert stations == stations[..|stations| - 1] + [s];
      cat[s.id := s]
  }

  /** A later station with the same id overwrites an earlier one, as in a dict comprehension. */
  lemma {:induction false} CatalogLastWins(stations: seq<Station>, i: int)
    requires 0 <= i < |stations| && LastWithId(stations, i)
    ensures stations[i].id in CatalogOf(stations)
    ensures CatalogOf(stations)[stations[i].id] == stations[i]
  {
    var n := |stations|;
    if i < n - 1 {
      var init := stations[..n - 1];
      assert LastWithId(init, i) by {
        forall j | i < j < |init| ensures init[j].id != init[i].id {
          assert init[j] == stations[j];
        }
      }
      CatalogLastWins(init, i);
      assert stations[n - 1].id != stations[i].id;
    }
  }

  // ---------------------------------------------------------------
  // Edge-list construction
  // ---------------------------------------------------------------

  /** The entries connect_sequence(ids) appends: a mirrored pair of line edges per consecutive pair. */
  function LinePairs(ids: seq<Id>): (es: seq<Edge>)
    ensures |es| == if |ids| == 0 then 0 else 2 * (|ids| - 1)
    ensures forall i :: 0 <= i < |ids| - 1 ==>
              es[2 * i] == Edge(ids[i], ids[i + 1], Line) && es[2 * i + 1] == Edge(ids[i + 1], ids[i], Line)
  {
    if |ids| < 2 then []
    else
      var n := |ids|;
      var init := LinePairs(ids[..n - 1]);
      init + [Edge(ids[n - 2], ids[n - 1], Line), Edge(ids[n - 1], ids[n - 2], Line)]
  }

  /** The entries the transfer loop appends: a mirrored pair of transfer edges per declared pair. */
  function TransferPairs(pairs: seq<(Id, Id)>): (es: seq<Edge>)
    ensures |es| == 2 * |pairs|
    ensures forall i :: 0 <= i < |pairs| ==>
              es[2 * i] == Edge(pairs[i].0, pairs[i].1, Transfer) && es[2 * i + 1] == Edge(pairs[i].1, pairs[i].0, Transfer)
  {
    if pairs == [] then []
    else
      var n := |pairs|;
      TransferPairs(pairs[..n - 1]) + [Edge(pairs[n - 1].0, pairs[n - 1].1, Transfer), Edge(pairs[n - 1].1, pairs[n - 1].0, Transfer)]
  }

  lemma SymmetricAppend(a: seq<Edge>, b: seq<Edge>)
    requires Symmetric(a) && Symmetric(b)
    ensures Symmetric(a + b)
  {
    forall i | 0 <= i < |a + b| ensures Mirror((a + b)[i]) in a + b {
      if i < |a| {
        assert (a + b)[i] == a[i];
      } else {
        assert (a + b)[i] == b[i - |a|];
      }
    }
  }

  /** A list made of mirrored pairs, entry 2k+1 mirroring entry 2k, is symmetric. */
  lemma PairedIsSymmetric(es: seq<Edge>)
    requires |es| % 2 == 0
    requires forall k :: 0 <= k < |es| / 2 ==> es[2 * k + 1] == Mirror(es[2 * k])
    ensures Symmetric(es)
  {
    forall i | 0 <= i < |es| ensures Mirror(es[i]) in es {
      var k := i / 2;
      assert es[2 * k + 1] == Mirror(es[2 * k]);
      if i % 2 == 0 {
        assert i == 2 * k;
        assert Mirror(es[i]) == es[2 * k + 1];
      } else {
        assert i == 2 * k + 1;
        assert Mirror(es[i]) == es[2 * k];
      }
    }
  }

  lemma LinePairsSymmetric(ids: seq<Id>)
    ensures Symmetric(LinePairs(ids))
  {
    var es := LinePairs(ids);
    if |ids| > 0 {
      assert |es| / 2 == |ids| - 1;
    }
    forall k | 0 <= k < |es| / 2 ensures es[2 * k + 1] == Mirror(es[2 * k]) {
      assert k < |ids| - 1;
      assert es[2 * k] == Edge(ids[k], ids[k + 1], Line);
    }
    PairedIsSymmetric(es);
  }

  lemma TransferPairsSymmetric(pairs: seq<(Id, Id)>)
    ensures Symmetric(TransferPairs(pairs))
  {
    var es := TransferPairs(pairs);
    assert |es| / 2 == |pairs|;
    forall k | 0 <= k < |es| / 2 ensures es[2 * k + 1] == Mirror(es[2 * k]) {
      assert k < |pairs|;
    }
    PairedIsSymmetric(es);
  }

  /** The module-level EDGES list that the start-up code appends to. */
  class EdgeList {
    var edges: seq<Edge>

    /** Edges are only ever inserted as mirrored pairs. */
    ghost predicate Valid()
      reads this
    {
      Symmetric(edges)
    }

    constructor ()
      ensures Valid() && edges == []
    {
      edges := [];
    }

    /** connect_sequence: link consecutive stations of one line in both directions. */
    method ConnectSequence(ids: seq<Id>)
      requires Valid()
      modifies this
      ensures Valid()
      ensures edges == old(edges) + LinePairs(ids)
    {
      var i := 0;
      while i + 1 < |ids|
        invariant i == 0 || i < |ids|
        invariant |ids| == 0 ==> edges == old(edges)
        invariant |ids| > 0 ==> edges == old(edges) + LinePairs(ids[..i + 1])
      {
        assert ids[..i + 2][..i + 1] == ids[..i + 1];
        edges := edges + [Edge(ids[i], ids[i + 1], Line)];
        edges := edges + [Edge(ids[i + 1], ids[i], Line)];
        i := i + 1;
      }
      if |ids| > 0 {
        assert ids[..i + 1] == ids;
      }
      LinePairsSymmetric(ids);
      SymmetricAppend(old(edges), LinePairs(ids));
    }

    /**
     * The transfer loop: a mirrored pair of transfer edges per declared pair.
     * Endpoints are not checked against the catalog.
     */
    method AddTransfers(pairs: seq<(Id, Id)>)
      requires Valid()
      modifies this
      ensures Valid()
      ensures edges == old(edges) + TransferPairs(pairs)
    {
      for k := 0 to |pairs|
        invariant edges == old(edges) + TransferPairs(pairs[..k])
      {
        assert pairs[..k + 1][..k] == pairs[..k];
        var (a, b) := pairs[k];
        edges := edges + [Edge(a, b, Transfer)];
        edges := edges + [Edge(b, a, Transfer)];
      }
      assert pairs[..|pairs|] == pairs;
      TransferPairsSymmetric(pairs);
      SymmetricAppend(old(edges), TransferPairs(pairs));
    }
  }

  /** Appending mirrored pairs of known stations keeps every endpoint known. */
  lemma KnownAppend(cat: Catalog, a: seq<Edge>, b: seq<Edge>)
    requires EdgesKnown(cat, a) && EdgesKnown(cat, b)
    ensures EdgesKnown(cat, a + b)
  {
    forall i | 0 <= i < |a + b| ensures (a + b)[i].from in cat && (a + b)[i].to in cat {
      if i >= |a| { assert (a + b)[i] == b[i - |a|]; }
    }
  }

  // ---------------------------------------------------------------
  // Walks over the edge list
  // ---------------------------------------------------------------

  /** `w` is a chain of listed edges leading from `x` to `y` (the empty chain when x == y). */
  predicate IsWalk(es: seq<Edge>, w: seq<Edge>, x: Id, y: Id) {
    (forall i :: 0 <= i < |w| ==> w[i] in es) &&
    (forall i :: 0 <= i < |w| - 1 ==> w[i].to == w[i + 1].from) &&
    (if w == [] then x == y else w[0].from == x && w[|w| - 1].to == y)
  }

  /** A nonempty walk minus its last edge is a walk to that edge's source. */
  lemma WalkInit(es: seq<Edge>, w: seq<Edge>, x: Id, y: Id)
    requires IsWalk(es, w, x, y) && w != []
    ensures IsWalk(es, w[..|w| - 1], x, w[|w| - 1].from)
    ensures w[|w| - 1] in es && w[|w| - 1].to == y
  {
  }

  /** A walk extended by a listed edge leaving its end is a walk to that edge's target. */
  lemma WalkAppend(es: seq<Edge>, w: seq<Edge>, e: Edge, x: Id, y: Id)
    requires IsWalk(es, w, x, y) && e in es && e.from == y
    ensures IsWalk(es, w + [e], x, e.to)
  {
    var w' := w + [e];
    forall i | 0 <= i < |w'| - 1 ensures w'[i].to == w'[i + 1].from {
      if i < |w| - 1 {
        assert w'[i] == w[i] && w'[i + 1] == w[i + 1];
      }
    }
  }

  /** Two walks that meet at `y` join into one walk. */
  lemma WalkConcat(es: seq<Edge>, u: seq<Edge>, v: seq<Edge>, x: Id, y: Id, z: Id)
    requires IsWalk(es, u, x, y) && IsWalk(es, v, y, z)
    ensures IsWalk(es, u + v, x, z)
  {
    var w := u + v;
    if u != [] && v != [] {
      forall i | 0 <= i < |w| - 1 ensures w[i].to == w[i + 1].from {
        if i < |u| - 1 {
          assert w[i] == u[i] && w[i + 1] == u[i + 1];
        } else if i == |u| - 1 {
          assert w[i] == u[|u| - 1] && w[i + 1] == v[0];
        } else {
          assert w[i] == v[i - |u|] && w[i + 1] == v[i + 1 - |u|];
        }
      }
    } else if u == [] {
      assert w == v;
    } else {
      assert w == u;
    }
  }

  ghost predicate Reachable(es: seq<Edge>, x: Id, y: Id) {
    exists w :: IsWalk(es, w, x, y)
  }
}
