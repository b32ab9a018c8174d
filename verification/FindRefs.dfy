// jsfindrefs: the bounded search for JavaScript values that refer to a value
// (src/mdb_v8.c:6153-6310).  The search is over the graph that the memory scan and v8whatis()
// span, which may have cycles.

module FindRefs {
  import opened Helpers
  import opened Wrappers
  import opened StringBuffer
  import opened CoreFile
  import opened MemoryScan
  import opened WhatIs

  // What one search consults.
  datatype Graph = Graph(
    hits: int -> seq<int>,                  // dbi_ugrep(): where a value is stored
    owner: int -> Option<(int, Byte)>,      // v8whatis(): the object stored around an address, when V8W_OK
    garbage: int -> bool,                   // jsobj_properties() failed or reported garbage
    valueTypes: set<Byte>,                  // the types accepted as JavaScript values
    typeJSObject: Byte, typeJSFunction: Byte, typeFixedArray: Byte,
    maxdepth: nat
  ) {
    ghost predicate Valid() {
      && maxdepth >= 1
      && typeFixedArray !in valueTypes && typeFixedArray != typeJSObject && typeFixedArray != typeJSFunction
    }
  }

  // jsfindrefs_reference(): `out` is what has been printed so far.
  function Reference(g: Graph, refaddr: int, curdepth: nat, out: seq<int>): (seq<int>, int)
    requires curdepth < g.maxdepth
    decreases g.maxdepth - curdepth, 0
  {
    match g.owner(refaddr)
    case None => (out, 0)
    case Some((base, t)) =>
      if t == g.typeJSObject && g.garbage(base) then (out, 0)
      else if t == g.typeJSFunction && curdepth > 1 then (out, 0)
      else if t in g.valueTypes then (out + [base], 0)
      else if t == g.typeFixedArray then
        if curdepth == g.maxdepth - 1 then (out, 0) else Search(g, base, curdepth + 1, out)
      else (out, 0)
  }

  function Callback(g: Graph, curdepth: nat): (int, seq<int>) -> (seq<int>, int)
    requires curdepth < g.maxdepth
    decreases g.maxdepth - curdepth, 1
  {
    (refaddr, out) => Reference(g, refaddr, curdepth, out)
  }

  // jsfindrefs()
  function Search(g: Graph, addr: int, curdepth: nat, out: seq<int>): (seq<int>, int)
    requires curdepth < g.maxdepth
    decreases g.maxdepth - curdepth, 2
  {
    var (out', rv) := Deliver(Callback(g, curdepth), g.hits(addr), out);
    (out', if rv != 0 then -1 else 0)
  }

  predicate IsFixedArray(g: Graph, r: int) {
    g.owner(r).Some? && g.owner(r).value.1 == g.typeFixedArray
  }

  // A reference found at the given depth is reported.
  predicate IsReported(g: Graph, r: int, depth: nat) {
    match g.owner(r)
    case None => false
    case Some((base, t)) =>
      && t in g.valueTypes
      && (t == g.typeJSObject ==> !g.garbage(base))
      && (t == g.typeJSFunction ==> depth <= 1)
  }

  // A chain of references: each is stored in a FixedArray to which the next one refers, except
  // that the last one is stored in a value that is reported.
  ghost predicate IsPath(g: Graph, hits: seq<int>, depth: nat, p: seq<int>) {
    && p != [] && p[0] in hits && depth + |p| <= g.maxdepth
    && (forall i | 0 <= i < |p| - 1 :: IsFixedArray(g, p[i]) && p[i + 1] in g.hits(g.owner(p[i]).value.0))
    && IsReported(g, p[|p| - 1], depth + |p| - 1)
  }

  // All chains that start with one of the given references, in the order of the search.
  function Paths(g: Graph, hits: seq<int>, depth: nat): seq<seq<int>>
    requires depth < g.maxdepth
    decreases g.maxdepth - depth, |hits|
  {
    if hits == [] then []
    else PathsFrom(g, hits[0], depth) + Paths(g, hits[1..], depth)
  }

  function PathsFrom(g: Graph, r: int, depth: nat): seq<seq<int>>
    requires depth < g.maxdepth
    decreases g.maxdepth - depth, 0
  {
    if IsReported(g, r, depth) then [[r]]
    else if IsFixedArray(g, r) && depth + 1 < g.maxdepth then
      Extend(r, Paths(g, g.hits(g.owner(r).value.0), depth + 1))
    else []
  }

  function Extend(r: int, ps: seq<seq<int>>): seq<seq<int>> {
    seq(|ps|, i requires 0 <= i < |ps| => [r] + ps[i])
  }

  // The values in which the chains end.
  function Ends(g: Graph, ps: seq<seq<int>>): seq<int> {
    if ps == [] then []
    else
      var p := ps[0];
      (if p != [] && g.owner(p[|p| - 1]).Some? then [g.owner(p[|p| - 1]).value.0] else []) + Ends(g, ps[1..])
  }

  lemma {:induction false} EndsConcat(g: Graph, a: seq<seq<int>>, b: seq<seq<int>>)
    ensures Ends(g, a + b) == Ends(g, a) + Ends(g, b)
  {
    if a == [] {
      assert a + b == b;
    } else {
      assert (a + b)[1..] == a[1..] + b;
      EndsConcat(g, a[1..], b);
    }
  }

  lemma {:induction false} EndsExtend(g: Graph, r: int, ps: seq<seq<int>>)
    requires forall i | 0 <= i < |ps| :: ps[i] != []
    ensures Ends(g, Extend(r, ps)) == Ends(g, ps)
  {
    if ps != [] {
      assert Extend(r, ps)[1..] == Extend(r, ps[1..]);
      assert ([r] + ps[0])[|ps[0]|] == ps[0][|ps[0]| - 1];
      EndsExtend(g, r, ps[1..]);
    }
  }

  lemma {:induction false} PathsNonEmpty(g: Graph, hits: seq<int>, depth: nat)
    requires depth < g.maxdepth
    ensures forall i | 0 <= i < |Paths(g, hits, depth)| :: Paths(g, hits, depth)[i] != []
    decreases |hits|
  {
    if hits != [] {
      PathsNonEmpty(g, hits[1..], depth);
    }
  }

  // The search prints the ends of all paths, one for each path, in order, and never fails.
  lemma {:induction false} SearchPrintsPathEnds(g: Graph, hits: seq<int>, depth: nat, out: seq<int>)
    requires g.Valid() && depth < g.maxdepth
    ensures Deliver(Callback(g, depth), hits, out) == (out + Ends(g, Paths(g, hits, depth)), 0)
    decreases g.maxdepth - depth, |hits|
  {
    if hits != [] {
      var first, others := PathsFrom(g, hits[0], depth), Paths(g, hits[1..], depth);
      ReferencePrintsPathEnds(g, hits[0], depth, out);
      SearchPrintsPathEnds(g, hits[1..], depth, out + Ends(g, first));
      EndsConcat(g, first, others);
      Associative(out, Ends(g, first), Ends(g, others));
    } else {
      assert out + [] == out;
    }
  }

  lemma {:induction false} ReferencePrintsPathEnds(g: Graph, r: int, depth: nat, out: seq<int>)
    requires g.Valid() && depth < g.maxdepth
    ensures Reference(g, r, depth, out) == (out + Ends(g, PathsFrom(g, r, depth)), 0)
    decreases g.maxdepth - depth, 0
  {
    if IsReported(g, r, depth) {
      var ps := [[r]];
      assert ps[1..] == [] && ps[0][|ps[0]| - 1] == r;
      assert Ends(g, ps) == [g.owner(r).value.0];
    } else if IsFixedArray(g, r) && depth + 1 < g.maxdepth {
      var next := g.hits(g.owner(r).value.0);
      SearchPrintsPathEnds(g, next, depth + 1, out);
      PathsNonEmpty(g, next, depth + 1);
      EndsExtend(g, r, Paths(g, next, depth + 1));
      assert Search(g, g.owner(r).value.0, depth + 1, out) == (out + Ends(g, Paths(g, next, depth + 1)), 0);
    } else {
      assert out + [] == out;
    }
  }

  lemma IsPathStep(g: Graph, hits: seq<int>, depth: nat, p: seq<int>)
    requires |p| >= 2
    ensures IsPath(g, hits, depth, p) <==>
              p[0] in hits && IsFixedArray(g, p[0]) && IsPath(g, g.hits(g.owner(p[0]).value.0), depth + 1, p[1..])
  {
    if IsPath(g, g.hits(if IsFixedArray(g, p[0]) then g.owner(p[0]).value.0 else 0), depth + 1, p[1..]) {
      forall i | 1 <= i < |p| - 1
        ensures IsFixedArray(g, p[i]) && p[i + 1] in g.hits(g.owner(p[i]).value.0)
      {
        assert IsFixedArray(g, p[1..][i - 1]);
      }
    }
  }

  // The enumeration is exact: it lists a chain if and only if it is a path.
  lemma {:induction false} PathsAreExact(g: Graph, hits: seq<int>, depth: nat, p: seq<int>)
    requires g.Valid() && depth < g.maxdepth
    ensures p in Paths(g, hits, depth) <==> IsPath(g, hits, depth, p)
    decreases g.maxdepth - depth, |hits|
  {
    if hits != [] {
      PathsFromAreExact(g, hits[0], depth, p);
      PathsAreExact(g, hits[1..], depth, p);
    }
  }

  lemma {:induction false} PathsFromAreExact(g: Graph, r: int, depth: nat, p: seq<int>)
    requires g.Valid() && depth < g.maxdepth
    ensures p in PathsFrom(g, r, depth) <==> IsPath(g, [r], depth, p)
    decreases g.maxdepth - depth, 0
  {
    if |p| >= 2 {
      IsPathStep(g, [r], depth, p);
    } else if |p| == 1 {
      assert p == [p[0]];
      assert IsPath(g, [r], depth, p) <==> p == [r] && IsReported(g, r, depth);
    }
    if !IsReported(g, r, depth) && IsFixedArray(g, r) && depth + 1 < g.maxdepth {
      var next := g.hits(g.owner(r).value.0);
      var ps := Paths(g, next, depth + 1);
      PathsNonEmpty(g, next, depth + 1);
      if p != [] {
        PathsAreExact(g, next, depth + 1, p[1..]);
      }
      if p in Extend(r, ps) {
        var i :| 0 <= i < |ps| && p == [r] + ps[i];
        assert p[1..] == ps[i];
      }
      if p != [] && p[0] == r && p[1..] in ps {
        var i :| 0 <= i < |ps| && ps[i] == p[1..];
        assert Extend(r, ps)[i] == p;
      }
    }
  }

  lemma PathsStartInHits(g: Graph, hits: seq<int>, depth: nat)
    requires g.Valid() && depth < g.maxdepth
    ensures forall p | p in Paths(g, hits, depth) :: p != [] && p[0] in hits
  {
    forall p | p in Paths(g, hits, depth) ensures p != [] && p[0] in hits {
      PathsAreExact(g, hits, depth, p);
    }
  }

  // No chain is listed twice, so each is reported once, if no scan finds a word twice.
  lemma {:induction false} PathsAreDistinct(g: Graph, hits: seq<int>, depth: nat)
    requires g.Valid() && depth < g.maxdepth && NoDuplicates(hits) && forall a :: NoDuplicates(g.hits(a))
    ensures NoDuplicates(Paths(g, hits, depth))
    decreases g.maxdepth - depth, |hits|
  {
    if hits != [] {
      var first, rest := PathsFrom(g, hits[0], depth), Paths(g, hits[1..], depth);
      PathsAreDistinct(g, hits[1..], depth);
      PathsStartInHits(g, hits[1..], depth);
      if IsFixedArray(g, hits[0]) && depth + 1 < g.maxdepth {
        var ps := Paths(g, g.hits(g.owner(hits[0]).value.0), depth + 1);
        PathsAreDistinct(g, g.hits(g.owner(hits[0]).value.0), depth + 1);
        assert forall x | 0 <= x < |ps| :: ([hits[0]] + ps[x])[1..] == ps[x];
      }
      assert NoDuplicates(first) && forall x | 0 <= x < |first| :: first[x][0] == hits[0];
      assert forall x | 0 <= x < |rest| :: rest[x] in rest;
    }
  }

  // The search terminates, never fails and prints exactly the reported values: an address is
  // printed if and only if it is the end of a path of at most maxdepth references whose
  // intermediate objects are FixedArrays.
  lemma SearchIsExact(g: Graph, addr: int, base: int)
    requires g.Valid()
    ensures Search(g, addr, 0, []) == (Ends(g, Paths(g, g.hits(addr), 0)), 0)
    ensures base in Search(g, addr, 0, []).0 <==>
              exists p: seq<int> :: IsPath(g, g.hits(addr), 0, p) && g.owner(p[|p| - 1]).value.0 == base
  {
    var ps := Paths(g, g.hits(addr), 0);
    SearchPrintsPathEnds(g, g.hits(addr), 0, []);
    assert [] + Ends(g, ps) == Ends(g, ps);
    if base in Ends(g, ps) {
      var p := EndHasPath(g, ps, base);
      PathsAreExact(g, g.hits(addr), 0, p);
    }
    if p: seq<int> :| IsPath(g, g.hits(addr), 0, p) && g.owner(p[|p| - 1]).value.0 == base {
      PathsAreExact(g, g.hits(addr), 0, p);
      PathHasEnd(g, ps, p);
    }
  }

  lemma {:induction false} EndHasPath(g: Graph, ps: seq<seq<int>>, base: int) returns (p: seq<int>)
    requires base in Ends(g, ps)
    ensures p in ps && p != [] && g.owner(p[|p| - 1]).Some? && g.owner(p[|p| - 1]).value.0 == base
  {
    p := ps[0];
    if !(p != [] && g.owner(p[|p| - 1]).Some? && g.owner(p[|p| - 1]).value.0 == base) {
      p := EndHasPath(g, ps[1..], base);
    }
  }

  lemma {:induction false} PathHasEnd(g: Graph, ps: seq<seq<int>>, p: seq<int>)
    requires p in ps && p != [] && g.owner(p[|p| - 1]).Some?
    ensures g.owner(p[|p| - 1]).value.0 in Ends(g, ps)
  {
    if ps[0] != p {
      PathHasEnd(g, ps[1..], p);
    }
  }

  // JSFunctions are reported only at the end of at most two references.
  lemma FunctionsAreClose(g: Graph, hits: seq<int>, p: seq<int>)
    requires g.Valid() && IsPath(g, hits, 0, p) && g.owner(p[|p| - 1]).value.1 == g.typeJSFunction
    ensures |p| <= 2
  {
  }

  // jsfindrefs_t, and what else the search depends on.
  datatype Options = Options(
    maps: seq<Mapping>, w: nat, maxoffset: nat, maxdepth: nat, garbage: int -> bool, valueTypes: set<Byte>
  ) {
    ghost predicate Valid(core: Core) {
      && w > 0 && maxdepth >= 1
      && core.k.typeFixedArray !in valueTypes
      && core.k.typeFixedArray != core.k.typeJSObject && core.k.typeFixedArray != core.k.typeJSFunction
    }
  }

  // The graph of a memory image.
  function GraphOf(core: Core, o: Options): (g: Graph)
    requires o.Valid(core)
    ensures g.Valid()
  {
    Graph(addr => AllHits(core, o.maps, o.w, addr),
          refaddr => if Lookup(core, refaddr, o.maxoffset).0.Ok? then Lookup(core, refaddr, o.maxoffset).1 else None,
          o.garbage, o.valueTypes, core.k.typeJSObject, core.k.typeJSFunction, core.k.typeFixedArray, o.maxdepth)
  }

  // On a heap that is laid out, the owner of a word inside an object is that object, and words past
  // its end have no owner; the exceptions are those of v8contains().
  lemma OwnerOfWord(core: Core, o: Options, obj: HeapObject, refaddr: int, n: nat)
    requires o.Valid(core) && WhatIs.LaidOut(core, obj)
    requires obj.base - 1 + PS * n <= refaddr < obj.base - 1 + PS * (n + 1) && PS * n < o.maxoffset
    requires !(IsVariable(core, obj.t) && PS * n == obj.size - 1)
    ensures PS * n < obj.size ==> GraphOf(core, o).owner(refaddr) == Some((obj.base, obj.t))
    ensures obj.size + PS * Excess(core, obj.base, obj.t) <= PS * n && NoHeader(core, obj.base + PS * n, 0, n) ==>
              GraphOf(core, o).owner(refaddr) == None
  {
    if PS * n < obj.size {
      OwnerIsFound(core, obj, refaddr, o.maxoffset, n);
    } else if obj.size + PS * Excess(core, obj.base, obj.t) <= PS * n && NoHeader(core, obj.base + PS * n, 0, n) {
      GapIsNotOwned(core, obj, refaddr, o.maxoffset, n);
    }
  }

  // jsfindrefs() and dbi_ugrep().  The scan's results are collected before any is followed, which
  // makes no difference as the callback never stops the scan.
  method JsFindRefs(core: Core, o: Options, addr: int, curdepth: nat, out: seq<int>) returns (out': seq<int>, rv: int)
    requires o.Valid(core) && curdepth < o.maxdepth
    ensures (out', rv) == Search(GraphOf(core, o), addr, curdepth, out)
    decreases o.maxdepth - curdepth, 1
  {
    ghost var g := GraphOf(core, o);
    var collect: (int, seq<int>) -> (seq<int>, int) := (a, found) => (found + [a], 0);
    ghost var all := g.hits(addr);
    DeliverCollects(collect, all, []);
    assert [] + all == all;
    var hits, scanned := Ugrep(core, o.maps, o.w, addr, collect, []);
    out', rv := out, 0;
    for i := 0 to |hits|
      invariant rv == 0
      invariant Deliver(Callback(g, curdepth), hits, out) == Deliver(Callback(g, curdepth), hits[i..], out')
    {
      assert hits[i..][1..] == hits[i + 1..];
      out', rv := FollowReference(core, o, hits[i], curdepth, out');
      if rv != 0 {
        return out', -1;
      }
    }
  }

  lemma {:induction false} DeliverCollects(cb: (int, seq<int>) -> (seq<int>, int), hits: seq<int>, found: seq<int>)
    requires forall a, f :: cb(a, f) == (f + [a], 0)
    ensures Deliver(cb, hits, found) == (found + hits, 0)
  {
    if hits != [] {
      DeliverCollects(cb, hits[1..], found + [hits[0]]);
      assert found + [hits[0]] + hits[1..] == found + hits;
    } else {
      assert found + [] == found;
    }
  }

  // jsfindrefs_reference()
  method FollowReference(core: Core, o: Options, refaddr: int, curdepth: nat, out: seq<int>)
    returns (out': seq<int>, rv: int)
    requires o.Valid(core) && curdepth < o.maxdepth
    ensures (out', rv) == Reference(GraphOf(core, o), refaddr, curdepth, out)
    decreases o.maxdepth - curdepth, 0
  {
    var err, whatis := V8WhatIs(core, refaddr, o.maxoffset, Answer(0, 0, 0, 0));
    if err.NotFound? || err.DoesntContain? {
      return out, 0;
    }
    if whatis.basetype == core.k.typeJSObject && o.garbage(whatis.baseaddr) {
      return out, 0;
    }
    if whatis.basetype == core.k.typeJSFunction && curdepth > 1 {
      return out, 0;
    }
    if whatis.basetype in o.valueTypes {
      return out + [whatis.baseaddr], 0;
    }
    if whatis.basetype == core.k.typeFixedArray {
      if curdepth == o.maxdepth - 1 {
        return out, 0;
      }
      out', rv := JsFindRefs(core, o, whatis.baseaddr, curdepth + 1, out);
      return;
    }
    return out, 0;
  }

  // dcmd_jsfindrefs(): the whole command, on any memory image.
  method FindReferences(core: Core, o: Options, addr: int) returns (printed: seq<int>, rv: int)
    requires o.Valid(core)
    ensures rv == 0
    ensures printed == Ends(GraphOf(core, o), Paths(GraphOf(core, o), AllHits(core, o.maps, o.w, addr), 0))
    ensures forall base :: base in printed <==>
              exists p: seq<int> :: IsPath(GraphOf(core, o), AllHits(core, o.maps, o.w, addr), 0, p)
                                 && GraphOf(core, o).owner(p[|p| - 1]).value.0 == base
  {
    printed, rv := JsFindRefs(core, o, addr, 0, []);
    SearchIsExact(GraphOf(core, o), addr, 0);
    forall base
      ensures base in printed <==>
        exists p: seq<int> :: IsPath(GraphOf(core, o), AllHits(core, o.maps, o.w, addr), 0, p)
                           && GraphOf(core, o).owner(p[|p| - 1]).value.0 == base
    {
      SearchIsExact(GraphOf(core, o), addr, base);
    }
  }

  // On non-overlapping mappings every path is reported exactly once.
  lemma EachPathOnce(core: Core, o: Options, addr: int)
    requires o.Valid(core) && Disjoint(o.maps)
    ensures NoDuplicates(Paths(GraphOf(core, o), AllHits(core, o.maps, o.w, addr), 0))
  {
    var g := GraphOf(core, o);
    forall a ensures NoDuplicates(g.hits(a)) {
      AllHitsAreDistinct(core, o.maps, o.w, a);
    }
    PathsAreDistinct(g, g.hits(addr), 0);
  }
}
