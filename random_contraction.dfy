/**
  Karger-style random contraction (random-contraction.h).

  A graph is a map from a vertex number to the list of edges stored under that
  vertex. Each undirected edge is normally stored twice, once under each
  endpoint, with no shared identity, so merging one vertex into another has to
  rewrite every list in the map.
 */
module RandomContraction {

  import Sequences

  /** An edge with its two endpoints and a weight that is only ever copied. */
  datatype Edge = Edge(begin: int, end: int, weight: int) {

    predicate Touches(v: int) {
      begin == v || end == v
    }

    predicate IsSelfLoop() {
      begin == end
    }

    /** Edge::ReplaceVertices: every endpoint equal to `oldV` becomes `newV`;
        nothing else changes. */
    function ReplaceVertices(oldV: int, newV: int): (e: Edge)
      ensures e.weight == weight
      ensures e.begin != begin ==> begin == oldV && e.begin == newV
      ensures e.end != end ==> end == oldV && e.end == newV
      ensures begin == oldV ==> e.begin == newV
      ensures end == oldV ==> e.end == newV
      ensures !Touches(oldV) ==> e == this
      ensures oldV != newV ==> !e.Touches(oldV)
      ensures !IsSelfLoop() && !(Touches(oldV) && Touches(newV)) ==> !e.IsSelfLoop()
    {
      Edge(if begin == oldV then newV else begin, if end == oldV then newV else end, weight)
    }
  }

  /** Applying ReplaceVertices a second time changes nothing. */
  lemma ReplaceVerticesIdempotent(e: Edge, oldV: int, newV: int)
    ensures e.ReplaceVertices(oldV, newV).ReplaceVertices(oldV, newV) == e.ReplaceVertices(oldV, newV)
  {
  }

  /** AdjacencyList's contents: vertex number to the list of edges stored
      under it. */
  type Lists = map<int, seq<Edge>>

  /** The list `adj_list[k]` reads: the stored one, or a new empty list. */
  function Lookup(g: Lists, k: int): seq<Edge> {
    if k in g then g[k] else []
  }

  /** std::remove_if followed by erase: drops the edges touching `v` and keeps
      the order of the others. */
  function Without(l: seq<Edge>, v: int): (r: seq<Edge>)
    ensures |r| <= |l|
    ensures forall e :: e in r <==> e in l && !e.Touches(v)
  {
    if l == [] then []
    else
      assert l == [l[0]] + l[1..];
      (if l[0].Touches(v) then [] else [l[0]]) + Without(l[1..], v)
  }

  /** Without keeps every edge not touching `v` as often as it occurs (parallel
      edges included) and no edge touching `v`. */
  lemma {:induction false} WithoutCounts(l: seq<Edge>, v: int)
    ensures forall e :: multiset(Without(l, v))[e] == if e.Touches(v) then 0 else multiset(l)[e]
  {
    if l != [] {
      WithoutCounts(l[1..], v);
      assert l == [l[0]] + l[1..];
    }
  }

  /** A list with no edge touching `v` comes back unchanged. */
  lemma {:induction false} WithoutUntouched(l: seq<Edge>, v: int)
    requires forall e :: e in l ==> !e.Touches(v)
    ensures Without(l, v) == l
  {
    if l != [] {
      assert l[0] in l;
      assert forall e :: e in l[1..] ==> e in l;
      WithoutUntouched(l[1..], v);
      assert l == [l[0]] + l[1..];
    }
  }

  /** Without keeps the order of what it keeps: filtering a concatenation is
      concatenating the filtered parts. */
  lemma {:induction false} WithoutAppend(a: seq<Edge>, b: seq<Edge>, v: int)
    ensures Without(a + b, v) == Without(a, v) + Without(b, v)
  {
    if a == [] {
      assert a + b == b;
    } else {
      var x, a' := a[0], a[1..];
      assert a == [x] + a';
      assert a + b == [x] + (a' + b);
      WithoutAppend(a', b, v);
      var p, q := Without(a', v), Without(b, v);
      WithoutCons(x, a' + b, v);
      WithoutCons(x, a', v);
      if x.Touches(v) {
        calc {
          Without(a + b, v);
          Without([x] + (a' + b), v);
          [] + Without(a' + b, v);
          { assert [] + Without(a' + b, v) == Without(a' + b, v); }
          p + q;
          { assert Without(a, v) == [] + p == p; }
          Without(a, v) + q;
        }
      } else {
        calc {
          Without(a + b, v);
          Without([x] + (a' + b), v);
          [x] + (p + q);
          { Sequences.ConsAppend(x, p, q); }
          ([x] + p) + q;
          Without(a, v) + q;
        }
      }
    }
  }

  lemma WithoutCons(x: Edge, l: seq<Edge>, v: int)
    ensures Without([x] + l, v) == (if x.Touches(v) then [] else [x]) + Without(l, v)
  {
    assert ([x] + l)[0] == x && ([x] + l)[1..] == l;
  }

  /** ReplaceVertices applied to every edge of a list, in place. */
  function Renamed(l: seq<Edge>, oldV: int, newV: int): (r: seq<Edge>)
    ensures |r| == |l|
    ensures forall i :: 0 <= i < |l| ==> r[i] == l[i].ReplaceVertices(oldV, newV)
  {
    seq(|l|, i requires 0 <= i < |l| => l[i].ReplaceVertices(oldV, newV))
  }

  /** ReplaceVertices applied to every edge of every list. */
  function RenameAll(g: Lists, oldV: int, newV: int): (r: Lists)
    ensures r.Keys == g.Keys
    ensures forall k :: k in g ==> r[k] == Renamed(g[k], oldV, newV)
  {
    map k | k in g :: Renamed(g[k], oldV, newV)
  }

  /** The map after Contraction_(src, dst): `dst`'s list loses the edges
      touching `src`, `src`'s list loses the edges touching `dst`, what is left
      of `src`'s list is appended to `dst`'s, and then every endpoint `src` in
      the whole map becomes `dst`. Both keys are created if missing. */
  function Contracted(g: Lists, src: int, dst: int): (r: Lists)
    requires src != dst
    ensures r.Keys == g.Keys + {src, dst}
  {
    var d := Without(Lookup(g, dst), src);
    var s := Without(Lookup(g, src), dst);
    RenameAll(g[dst := d + s][src := s], src, dst)
  }

  /** Every edge is stored under one of its endpoints. */
  ghost predicate WellFormed(g: Lists) {
    forall k, e :: k in g && e in g[k] ==> e.Touches(k)
  }

  ghost predicate NoSelfLoops(g: Lists) {
    forall k, e :: k in g && e in g[k] ==> !e.IsSelfLoop()
  }

  /** The vertex numbers a map mentions, as keys or as endpoints. */
  ghost function Vertices(g: Lists): set<int> {
    g.Keys
    + (set k, e | k in g && e in g[k] :: e.begin)
    + (set k, e | k in g && e in g[k] :: e.end)
  }

  /** The copy RandomContraction starts from: the keys whose lists are not
      empty (std::remove_copy_if). */
  function NonEmpty(g: Lists): (r: Lists)
    ensures forall k :: k in r <==> k in g && g[k] != []
    ensures forall k :: k in r ==> r[k] == g[k]
  {
    map k | k in g && g[k] != [] :: g[k]
  }

  /** The restriction of a map to some keys. */
  function Restrict(g: Lists, keys: set<int>): (r: Lists)
    ensures r.Keys == g.Keys * keys
    ensures forall k :: k in r ==> r[k] == g[k]
  {
    map k | k in g && k in keys :: g[k]
  }

  // ---------------------------------------------------------------------------
  // All stored edges, and how many there are
  // ---------------------------------------------------------------------------

  /** A set that is not empty has an element. */
  lemma HasElement(s: set<int>)
    requires s != {}
    ensures exists x :: x in s
  {
    if forall x :: x !in s {
      assert false;
    }
  }

  /** Every stored edge, as often as it is stored, in no particular order. */
  ghost function AllEdges(g: Lists): multiset<Edge>
    decreases |g|
  {
    if g.Keys == {} then multiset{}
    else
      HasElement(g.Keys);
      var k :| k in g.Keys;
      assert (g - {k}).Keys == g.Keys - {k};
      multiset(g[k]) + AllEdges(g - {k})
  }

  /** The sum of the list lengths. */
  ghost function EdgeCount(g: Lists): nat {
    |AllEdges(g)|
  }

  /** AllEdges can take its lists in any order. */
  lemma {:induction false} AllEdgesRemove(g: Lists, k: int)
    requires k in g
    ensures AllEdges(g) == multiset(g[k]) + AllEdges(g - {k})
    decreases |g|
  {
    HasElement(g.Keys);
    var j :| j in g.Keys && AllEdges(g) == multiset(g[j]) + AllEdges(g - {j});
    if j != k {
      RemoveTwo(g, j, k);
      AllEdgesRemove(g - {j}, k);
      AllEdgesRemove(g - {k}, j);
    }
  }

  /** Erasing two different keys, in either order. */
  lemma RemoveTwo(g: Lists, j: int, k: int)
    requires j in g && k in g && j != k
    ensures |g - {j}| < |g| && |g - {k}| < |g|
    ensures k in g - {j} && (g - {j})[k] == g[k]
    ensures j in g - {k} && (g - {k})[j] == g[j]
    ensures g - {j} - {k} == g - {k} - {j}
  {
    assert (g - {j}).Keys == g.Keys - {j};
    assert (g - {k}).Keys == g.Keys - {k};
  }

  lemma EdgeCountRemove(g: Lists, k: int)
    ensures EdgeCount(g) == |Lookup(g, k)| + EdgeCount(g - {k})
  {
    if k in g {
      AllEdgesRemove(g, k);
    } else {
      assert g - {k} == g;
    }
  }

  lemma EdgeCountUpdate(g: Lists, k: int, l: seq<Edge>)
    ensures EdgeCount(g[k := l]) == |l| + EdgeCount(g - {k})
  {
    EdgeCountRemove(g[k := l], k);
    assert g[k := l] - {k} == g - {k};
  }

  /** Two maps with the same keys and the same list lengths hold the same
      number of edges. */
  lemma {:induction false} EdgeCountSameLengths(g: Lists, h: Lists)
    requires g.Keys == h.Keys
    requires forall k :: k in g ==> |g[k]| == |h[k]|
    ensures EdgeCount(g) == EdgeCount(h)
    decreases |g|
  {
    if g.Keys != {} {
      HasElement(g.Keys);
      var k :| k in g;
      EdgeCountRemove(g, k);
      EdgeCountRemove(h, k);
      assert (g - {k}).Keys == g.Keys - {k};
      EdgeCountSameLengths(g - {k}, h - {k});
    }
  }

  /** Dropping the empty lists drops no edge. */
  lemma {:induction false} NonEmptyAllEdges(g: Lists)
    ensures AllEdges(NonEmpty(g)) == AllEdges(g)
    ensures EdgeCount(NonEmpty(g)) == EdgeCount(g)
    decreases |g|
  {
    if g.Keys != {} {
      HasElement(g.Keys);
      var k :| k in g;
      AllEdgesRemove(g, k);
      NonEmptyRemove(g, k);
      NonEmptyAllEdges(g - {k});
      if k in NonEmpty(g) {
        AllEdgesRemove(NonEmpty(g), k);
      }
    }
  }

  /** Erasing a key before or after dropping the empty lists is the same. */
  lemma NonEmptyRemove(g: Lists, k: int)
    requires k in g
    ensures |g - {k}| < |g|
    ensures NonEmpty(g) - {k} == NonEmpty(g - {k})
    ensures k !in NonEmpty(g) ==> NonEmpty(g) == NonEmpty(g - {k}) && g[k] == []
  {
    assert (g - {k}).Keys == g.Keys - {k};
  }

  // ---------------------------------------------------------------------------
  // What Contraction_ does to the map
  // ---------------------------------------------------------------------------

  /** `dst`'s new list is its old list without the edges touching `src`,
      unchanged, followed by `src`'s old list without the edges touching `dst`,
      renamed. `src`'s list is filtered and renamed but not cleared. */
  lemma ContractedLists(g: Lists, src: int, dst: int)
    requires src != dst
    ensures var d := Without(Lookup(g, dst), src);
            var s := Without(Lookup(g, src), dst);
            var c := Contracted(g, src, dst);
            && |c[dst]| == |d| + |s|
            && c[dst][..|d|] == d
            && c[dst][|d|..] == Renamed(s, src, dst)
            && c[src] == Renamed(s, src, dst)
  {
    var d := Without(Lookup(g, dst), src);
    var s := Without(Lookup(g, src), dst);
    var c := Contracted(g, src, dst);
    assert c[dst] == Renamed(d + s, src, dst);
    RenamedAppend(d, s, src, dst);
    RenamedUntouched(d, src, dst);
    assert (d + Renamed(s, src, dst))[..|d|] == d;
    assert (d + Renamed(s, src, dst))[|d|..] == Renamed(s, src, dst);
  }

  lemma RenamedAppend(a: seq<Edge>, b: seq<Edge>, oldV: int, newV: int)
    ensures Renamed(a + b, oldV, newV) == Renamed(a, oldV, newV) + Renamed(b, oldV, newV)
  {
    var l := Renamed(a + b, oldV, newV);
    var r := Renamed(a, oldV, newV) + Renamed(b, oldV, newV);
    forall i | 0 <= i < |l| ensures l[i] == r[i] {
      if i < |a| {
        assert (a + b)[i] == a[i];
      } else {
        assert (a + b)[i] == b[i - |a|];
      }
    }
  }

  /** A list with no edge touching `oldV` is left alone by the renaming. */
  lemma RenamedUntouched(l: seq<Edge>, oldV: int, newV: int)
    requires forall e :: e in l ==> !e.Touches(oldV)
    ensures Renamed(l, oldV, newV) == l
  {
    forall i | 0 <= i < |l| ensures l[i].ReplaceVertices(oldV, newV) == l[i] {
      assert l[i] in l;
    }
  }

  /** Every other list keeps its length and order; only endpoints equal to
      `src` change, and they become `dst`. */
  lemma ContractedOtherList(g: Lists, src: int, dst: int, k: int)
    requires src != dst && k in g && k != src && k != dst
    ensures var c := Contracted(g, src, dst);
            && |c[k]| == |g[k]|
            && forall i :: 0 <= i < |g[k]| ==> c[k][i] == g[k][i].ReplaceVertices(src, dst)
  {
  }

  /** After Contraction_ no stored edge has `src` as an endpoint. */
  lemma ContractedForgetsSrc(g: Lists, src: int, dst: int)
    requires src != dst
    ensures forall k, e :: k in Contracted(g, src, dst) && e in Contracted(g, src, dst)[k] ==> !e.Touches(src)
  {
  }

  /** On a well-formed map without self-loops, Contraction_ keeps every list
      other than `src`'s well-formed and free of self-loops. */
  lemma ContractedWellFormed(g: Lists, src: int, dst: int)
    requires src != dst && WellFormed(g) && NoSelfLoops(g)
    ensures WellFormed(Contracted(g, src, dst) - {src})
    ensures NoSelfLoops(Contracted(g, src, dst) - {src})
  {
    var c := Contracted(g, src, dst);
    forall k, e | k in c - {src} && e in c[k]
      ensures e.Touches(k) && !e.IsSelfLoop()
    {
      ContractedEdge(g, src, dst, k, e);
    }
  }

  /** One stored edge of the contracted map, under a key other than `src`,
      comes from an edge of `g` that was well-formed and not a self-loop. */
  lemma ContractedEdge(g: Lists, src: int, dst: int, k: int, e: Edge)
    requires src != dst && WellFormed(g) && NoSelfLoops(g)
    requires k in Contracted(g, src, dst) && k != src && e in Contracted(g, src, dst)[k]
    ensures e.Touches(k) && !e.IsSelfLoop()
  {
    var d := Without(Lookup(g, dst), src);
    var s := Without(Lookup(g, src), dst);
    var m := g[dst := d + s][src := s];
    var l := m[k];
    var c := Contracted(g, src, dst);
    assert c == RenameAll(m, src, dst);
    assert c[k] == Renamed(l, src, dst);
    var i :| 0 <= i < |c[k]| && c[k][i] == e;
    var x := l[i];
    assert e == x.ReplaceVertices(src, dst);
    if k == dst && i < |d| {
      assert x == d[i] && x in d;
    } else if k == dst {
      assert x == s[i - |d|] && x in s;
    } else {
      assert x in g[k];
    }
  }

  /** One iteration of RandomContraction's loop (contract, then erase `src`):
      `src` is no longer a key, `dst` is one, and when both were keys the key
      count drops by exactly one. */
  lemma StepKeys(g: Lists, src: int, dst: int)
    requires src != dst
    ensures (Contracted(g, src, dst) - {src}).Keys == g.Keys + {dst} - {src}
    ensures src !in Contracted(g, src, dst) - {src}
    ensures src in g && dst in g ==> |Contracted(g, src, dst) - {src}| == |g| - 1
  {
    var r := Contracted(g, src, dst) - {src};
    assert r.Keys == g.Keys + {dst} - {src};
    if src in g && dst in g {
      assert r.Keys == g.Keys - {src};
      assert |r.Keys| == |g.Keys| - 1;
    }
  }

  /** One iteration never increases the number of stored edges. */
  lemma StepEdgeCount(g: Lists, src: int, dst: int)
    requires src != dst
    ensures EdgeCount(Contracted(g, src, dst) - {src}) <= EdgeCount(g)
  {
    var d := Without(Lookup(g, dst), src);
    var s := Without(Lookup(g, src), dst);
    var h := (g - {src})[dst := d + s];
    ContractedLengths(g, src, dst);
    EdgeCountSameLengths(Contracted(g, src, dst) - {src}, h);
    EdgeCountUpdate(g - {src}, dst, d + s);
    EdgeCountRemove(g, src);
    EdgeCountRemove(g - {src}, dst);
    assert Lookup(g - {src}, dst) == Lookup(g, dst);
  }

  /** Apart from `src`, the contracted map has the keys and list lengths of
      the map whose `dst` list is the two filtered lists appended. */
  lemma ContractedLengths(g: Lists, src: int, dst: int)
    requires src != dst
    ensures var h := (g - {src})[dst := Without(Lookup(g, dst), src) + Without(Lookup(g, src), dst)];
            var c := Contracted(g, src, dst) - {src};
            && c.Keys == h.Keys
            && forall k :: k in c ==> |c[k]| == |h[k]|
  {
    var d := Without(Lookup(g, dst), src);
    var s := Without(Lookup(g, src), dst);
    var h := (g - {src})[dst := d + s];
    var c := Contracted(g, src, dst) - {src};
    assert c.Keys == h.Keys;
    forall k | k in c ensures |c[k]| == |h[k]| {
      assert c[k] == Renamed(g[dst := d + s][src := s][k], src, dst);
    }
  }

  /** What one turn of RandomContraction keeps: the keys stay among the
      vertices of the original graph, the edge count does not grow, and well
      formed lists without self-loops stay so. */
  lemma StepPreserves(g0: Lists, g: Lists, src: int, dst: int)
    requires src != dst && src in Vertices(g0) && dst in Vertices(g0)
    requires g.Keys <= Vertices(g0) && EdgeCount(g) <= EdgeCount(g0)
    requires WellFormed(g0) ==> WellFormed(g) && NoSelfLoops(g)
    ensures (Contracted(g, src, dst) - {src}).Keys <= Vertices(g0)
    ensures EdgeCount(Contracted(g, src, dst) - {src}) <= EdgeCount(g0)
    ensures WellFormed(g0) ==>
              WellFormed(Contracted(g, src, dst) - {src}) && NoSelfLoops(Contracted(g, src, dst) - {src})
  {
    StepKeys(g, src, dst);
    StepEdgeCount(g, src, dst);
    if WellFormed(g0) {
      ContractedWellFormed(g, src, dst);
    }
  }

  /** Every edge of the snapshot of the non-empty lists joins two vertices of
      the graph and, when the graph has no self-loops, is not one. */
  lemma PoolEdges(g: Lists, pool: seq<Edge>)
    requires forall e :: e in pool ==> exists k :: k in NonEmpty(g) && e in NonEmpty(g)[k]
    ensures forall e :: e in pool ==> e.begin in Vertices(g) && e.end in Vertices(g)
    ensures NoSelfLoops(g) ==> forall e :: e in pool ==> !e.IsSelfLoop()
  {
    forall e | e in pool ensures e.begin in Vertices(g) && e.end in Vertices(g) && (NoSelfLoops(g) ==> !e.IsSelfLoop()) {
      var k :| k in NonEmpty(g) && e in NonEmpty(g)[k];
      assert k in g && e in g[k];
    }
  }

  // ---------------------------------------------------------------------------
  // The graph object and the two operations
  // ---------------------------------------------------------------------------

  /** AdjacencyList: an unordered_map from vertex number to a std::list of
      edges, updated in place. */
  class AdjacencyList {
    var lists: Lists

    constructor (lists: Lists)
      ensures this.lists == lists
    {
      this.lists := lists;
    }

    /** Contraction_: merges `src` into `dst` in place. */
    method Contraction(src: int, dst: int)
      requires src != dst
      modifies this
      ensures lists == Contracted(old(lists), src, dst)
    {
      // The two references operator[] hands out (creating a missing key
      // with an empty list); both lists are written back below.
      var dstList := Lookup(lists, dst);
      var srcList := Lookup(lists, src);
      dstList := Without(dstList, src);
      srcList := Without(srcList, dst);
      dstList := dstList + srcList;
      lists := lists[dst := dstList][src := srcList];
      // Rewrite every endpoint `src` in every list.
      RenameEverywhere(src, dst);
    }

    /** unordered_map::erase: removes the key `k` and its list. */
    method Erase(k: int)
      modifies this
      ensures lists == old(lists) - {k}
    {
      lists := lists - {k};
    }

    /** The nested loop at the end of Contraction_: ReplaceVertices on every
        edge of every list, in place. */
    method RenameEverywhere(oldV: int, newV: int)
      modifies this
      ensures lists == RenameAll(old(lists), oldV, newV)
    {
      var pending := lists.Keys;
      while pending != {}
        invariant pending <= lists.Keys && lists.Keys == old(lists).Keys
        invariant forall k :: k in lists ==>
                    lists[k] == if k in pending then old(lists)[k] else Renamed(old(lists)[k], oldV, newV)
        decreases pending
      {
        HasElement(pending);
        var k :| k in pending;
        var l := lists[k];
        var i := 0;
        while i < |l|
          invariant i <= |l| == |old(lists)[k]|
          invariant forall j :: 0 <= j < i ==> l[j] == old(lists)[k][j].ReplaceVertices(oldV, newV)
          invariant forall j :: i <= j < |l| ==> l[j] == old(lists)[k][j]
        {
          l := l[i := l[i].ReplaceVertices(oldV, newV)];
          i := i + 1;
        }
        lists := lists[k := l];
        pending := pending - {k};
      }
      assert forall k :: k in lists ==> lists[k] == RenameAll(old(lists), oldV, newV)[k];
    }
  }

  /** The loop that snapshots every stored edge into one vector, list after
      list in whatever order the map yields its keys. */
  method CollectEdges(g: Lists) returns (edges: seq<Edge>)
    ensures multiset(edges) == AllEdges(g)
    ensures forall e :: e in edges ==> exists k :: k in g && e in g[k]
  {
    edges := [];
    var pending := g.Keys;
    assert Restrict(g, pending) == g;
    while pending != {}
      invariant pending <= g.Keys
      invariant multiset(edges) + AllEdges(Restrict(g, pending)) == AllEdges(g)
      invariant forall e :: e in edges ==> exists k :: k in g && e in g[k]
      decreases pending
    {
      HasElement(pending);
      var k :| k in pending;
      AllEdgesRemove(Restrict(g, pending), k);
      assert Restrict(g, pending) - {k} == Restrict(g, pending - {k});
      edges := edges + g[k];
      pending := pending - {k};
    }
    assert Restrict(g, pending).Keys == {};
  }

  /** vector::erase at one position. */
  function EraseAt(s: seq<Edge>, n: nat): (r: seq<Edge>)
    requires n < |s|
    ensures |r| == |s| - 1
    ensures forall i :: 0 <= i < |r| ==> r[i] == if i < n then s[i] else s[i + 1]
    ensures forall e :: e in r ==> e in s
  {
    s[..n] + s[n + 1..]
  }

  /** The loop of RandomContraction as a function: from lists `g`, pool
      `pool` and turn `t`, the lists and the turn count it ends with. Each turn
      takes the pool entry at `rand(t) % |pool|`, erases it, contracts its
      `begin` into its `end` and erases the key `begin`; the loop stops when
      the pool is empty or at most two keys are left. */
  function Run(g: Lists, pool: seq<Edge>, rand: nat -> nat, t: nat): (r: (Lists, nat))
    requires forall e :: e in pool ==> !e.IsSelfLoop()
    ensures t <= r.1 <= t + |pool|
    ensures |r.0| <= 2 || r.1 == t + |pool|
    decreases |pool|
  {
    if |pool| == 0 || |g| <= 2 then (g, t)
    else
      var n := rand(t) % |pool|;
      var e := pool[n];
      assert e in pool && !e.IsSelfLoop();
      Run(Contracted(g, e.begin, e.end) - {e.begin}, EraseAt(pool, n), rand, t + 1)
  }

  /** One turn of Run, when the loop condition holds. */
  lemma RunStep(g: Lists, pool: seq<Edge>, rand: nat -> nat, t: nat, n: nat)
    requires forall e :: e in pool ==> !e.IsSelfLoop()
    requires |pool| != 0 && |g| > 2 && n == rand(t) % |pool|
    ensures pool[n].begin != pool[n].end
    ensures Run(g, pool, rand, t)
         == Run(Contracted(g, pool[n].begin, pool[n].end) - {pool[n].begin}, EraseAt(pool, n), rand, t + 1)
  {
    assert pool[n] in pool;
  }

  /** Run stops at once when the loop condition fails. */
  lemma RunStop(g: Lists, pool: seq<Edge>, rand: nat -> nat, t: nat)
    requires forall e :: e in pool ==> !e.IsSelfLoop()
    requires |pool| == 0 || |g| <= 2
    ensures Run(g, pool, rand, t) == (g, t)
  {
  }

  /** Every turn of Run keeps the keys among the vertices of the original
      graph `g0`, does not let the edge count exceed that of `g0`, and keeps a
      well-formed graph well-formed and free of self-loops. */
  lemma {:induction false} RunPreserves(g0: Lists, g: Lists, pool: seq<Edge>, rand: nat -> nat, t: nat)
    requires forall e :: e in pool ==> e.begin in Vertices(g0) && e.end in Vertices(g0) && !e.IsSelfLoop()
    requires g.Keys <= Vertices(g0) && EdgeCount(g) <= EdgeCount(g0)
    requires WellFormed(g0) ==> WellFormed(g) && NoSelfLoops(g)
    ensures Run(g, pool, rand, t).0.Keys <= Vertices(g0)
    ensures EdgeCount(Run(g, pool, rand, t).0) <= EdgeCount(g0)
    ensures WellFormed(g0) ==> WellFormed(Run(g, pool, rand, t).0) && NoSelfLoops(Run(g, pool, rand, t).0)
    decreases |pool|
  {
    if |pool| != 0 && |g| > 2 {
      var n := rand(t) % |pool|;
      var e := pool[n];
      StepPreserves(g0, g, e.begin, e.end);
      RunPreserves(g0, Contracted(g, e.begin, e.end) - {e.begin}, EraseAt(pool, n), rand, t + 1);
    }
  }

  /** A snapshot of the edges of the non-empty copy of `g0` holds every edge
      stored in `g0`, as often as it is stored; its entries join vertices of
      `g0` and none is a self-loop when `g0` has none. */
  lemma SnapshotOfCopy(g0: Lists, pool: seq<Edge>)
    requires multiset(pool) == AllEdges(NonEmpty(g0))
    requires forall e :: e in pool ==> exists k :: k in NonEmpty(g0) && e in NonEmpty(g0)[k]
    requires NoSelfLoops(g0)
    ensures multiset(pool) == AllEdges(g0)
    ensures |pool| == EdgeCount(g0)
    ensures forall e :: e in pool ==> e.begin in Vertices(g0) && e.end in Vertices(g0) && !e.IsSelfLoop()
  {
    NonEmptyAllEdges(g0);
    assert |pool| == |multiset(pool)|;
    PoolEdges(g0, pool);
  }

  /** What a whole run from the non-empty copy of `g0` and a pool of all its
      edges yields: the copy itself when at most two lists are non-empty or
      there is no edge; otherwise keys among the vertices of `g0`, at most one
      turn per edge and all of them unless at most two keys are left, no more
      edges than `g0`, and well-formedness kept. */
  lemma RunFromCopy(g0: Lists, pool0: seq<Edge>, rand: nat -> nat)
    requires forall e :: e in pool0 ==> e.begin in Vertices(g0) && e.end in Vertices(g0) && !e.IsSelfLoop()
    requires |pool0| == EdgeCount(g0)
    requires NoSelfLoops(g0)
    ensures |NonEmpty(g0)| <= 2 || EdgeCount(g0) == 0 ==> Run(NonEmpty(g0), pool0, rand, 0) == (NonEmpty(g0), 0)
    ensures Run(NonEmpty(g0), pool0, rand, 0).0.Keys <= Vertices(g0)
    ensures Run(NonEmpty(g0), pool0, rand, 0).1 <= EdgeCount(g0)
    ensures |Run(NonEmpty(g0), pool0, rand, 0).0| <= 2 || Run(NonEmpty(g0), pool0, rand, 0).1 == EdgeCount(g0)
    ensures EdgeCount(Run(NonEmpty(g0), pool0, rand, 0).0) <= EdgeCount(g0)
    ensures WellFormed(g0) ==> WellFormed(Run(NonEmpty(g0), pool0, rand, 0).0) && NoSelfLoops(Run(NonEmpty(g0), pool0, rand, 0).0)
  {
    NonEmptyAllEdges(g0);
    if |NonEmpty(g0)| <= 2 || EdgeCount(g0) == 0 {
      RunStop(NonEmpty(g0), pool0, rand, 0);
    }
    RunPreserves(g0, NonEmpty(g0), pool0, rand, 0);
  }

  /** RandomContraction: works on a copy of `adj` without its empty lists.
      While edges remain in the snapshot `pool0` and more than two keys remain,
      it takes the snapshot entry at index `rand(t) % |pool|` (where `rand(t)`
      is the value std::rand() returns on the loop's `t`-th turn), removes that
      entry, contracts its `begin` into its `end` and erases the key `begin`.
      The result and the number of turns `steps` are those of Run. */
  method RandomContraction(adj: AdjacencyList, rand: nat -> nat)
    returns (r: AdjacencyList, ghost pool0: seq<Edge>, ghost steps: nat)
    requires NoSelfLoops(adj.lists)
    ensures fresh(r)
    ensures adj.lists == old(adj.lists)
    ensures multiset(pool0) == AllEdges(adj.lists)
    ensures forall e :: e in pool0 ==> !e.IsSelfLoop()
    ensures (r.lists, steps) == Run(NonEmpty(adj.lists), pool0, rand, 0)
    ensures |NonEmpty(adj.lists)| <= 2 || EdgeCount(adj.lists) == 0 ==> r.lists == NonEmpty(adj.lists) && steps == 0
    ensures r.lists.Keys <= Vertices(adj.lists)
    ensures steps <= EdgeCount(adj.lists)
    ensures |r.lists| <= 2 || steps == EdgeCount(adj.lists)
    ensures EdgeCount(r.lists) <= EdgeCount(adj.lists)
    ensures WellFormed(adj.lists) ==> WellFormed(r.lists) && NoSelfLoops(r.lists)
  {
    ghost var g0 := adj.lists;
    r := new AdjacencyList(NonEmpty(adj.lists));
    var pool := CollectEdges(r.lists);
    pool0 := pool;
    SnapshotOfCopy(g0, pool);
    var t := 0;
    while |pool| != 0 && |r.lists| > 2
      invariant r != adj && adj.lists == g0
      invariant forall e :: e in pool ==> !e.IsSelfLoop()
      invariant Run(r.lists, pool, rand, t) == Run(NonEmpty(g0), pool0, rand, 0)
      decreases |pool|
    {
      var n := rand(t) % |pool|;
      var edge := pool[n];
      var src, dst := edge.begin, edge.end;
      RunStep(r.lists, pool, rand, t, n);
      pool := EraseAt(pool, n);
      r.Contraction(src, dst);
      r.Erase(src);
      t := t + 1;
    }
    RunStop(r.lists, pool, rand, t);
    steps := t;
    RunFromCopy(g0, pool0, rand);
  }
}
