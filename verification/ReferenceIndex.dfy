// The reverse-reference pass of findjsobjects: who refers to the marked addresses?
// (src/mdb_v8.c:4852-4863, 5166-5349)

module ReferenceIndex {
  import opened CoreFile
  import opened Helpers
  import opened Signatures
  import opened Wrappers
  import opened OrderedTree
  import opened PropCalls
  import opened FindObjects

  datatype Place = Named(name: string) | At(index: nat)

  const NO_INDEX: nat := 0xFFFF_FFFF_FFFF_FFFF    // -1 as a size_t
  const SIZE_MODULUS := NO_INDEX + 1

  // A property or element of an object, with the value it holds.
  datatype Edge = Edge(from: int, place: Place, value: PropValue)

  datatype Reference = Reference(addr: int, place: Place)

  datatype Referent = Referent(addr: int, references: seq<Reference>)

  // What the pass can read about one object; `elements` is read_heap_array() of its elements.
  datatype Contents = Contents(inspect: int -> Inspection, elements: int -> Option<seq<int>>)

  // findjsobjects_cmp_referents()
  function CmpReferents(a: int, b: int): int {
    if a < b then -1 else if a > b then 1 else 0
  }

  // The references to `addr` among some edges: unboxed doubles refer to nothing.
  function Matching(edges: seq<Edge>, addr: int): seq<Reference> {
    if edges == [] then []
    else
      var n := |edges| - 1;
      var before := Matching(edges[..n], addr);
      if edges[n].value == Tagged(addr) then before + [Reference(edges[n].from, edges[n].place)] else before
  }

  function CallEdges(from: int, calls: seq<PropCall>): seq<Edge> {
    if calls == [] then []
    else
      var n := |calls| - 1;
      var before := CallEdges(from, calls[..n]);
      if calls[n].value.Some? then before + [CallEdge(from, calls[n])] else before
  }

  function CallEdge(from: int, call: PropCall): Edge
    requires call.value.Some?
  {
    Edge(from, if call.desc.Some? then Named(call.desc.value) else At(NO_INDEX), call.value.value)
  }

  function ElementEdges(from: int, elements: seq<int>): seq<Edge> {
    seq(|elements|, i requires 0 <= i < |elements| => Edge(from, At(i), Tagged(elements[i])))
  }

  // Groups without property names whose property count is not zero are those of arrays.
  predicate IsArraySignature(sig: Signature) {
    sig.nprops != 0 && sig.props == []
  }

  predicate IsArrayGroup(g: Group) {
    IsArraySignature(g.sig)
  }

  function InstanceEdges(c: Contents, ofArray: bool, addr: int): seq<Edge> {
    if ofArray then
      match c.elements(addr)
      case None => []
      case Some(elements) => ElementEdges(addr, elements)
    else CallEdges(addr, c.inspect(addr).calls)
  }

  function InstancesEdges(c: Contents, ofArray: bool, instances: seq<int>): seq<Edge> {
    if instances == [] then []
    else
      var n := |instances| - 1;
      InstancesEdges(c, ofArray, instances[..n]) + InstanceEdges(c, ofArray, instances[n])
  }

  lemma InstancesEdgesSnoc(c: Contents, ofArray: bool, instances: seq<int>, n: nat, before: seq<Edge>)
    requires n < |instances|
    ensures before + InstancesEdges(c, ofArray, instances[..n]) + InstanceEdges(c, ofArray, instances[n])
         == before + InstancesEdges(c, ofArray, instances[..n + 1])
  {
    assert instances[..n + 1][..n] == instances[..n];
    Associative(before, InstancesEdges(c, ofArray, instances[..n]), InstanceEdges(c, ofArray, instances[n]));
  }

  // All properties and elements of all objects found, in the order of the pass; `groups` is
  // the list fjs_objects as it stands, which findjsobjects_run() has sorted.
  function AllEdges(c: Contents, groups: seq<Group>): seq<Edge> {
    if groups == [] then []
    else
      var n := |groups| - 1;
      AllEdges(c, groups[..n]) + InstancesEdges(c, IsArrayGroup(groups[n]), groups[n].instances)
  }

  lemma AllEdgesSnoc(c: Contents, groups: seq<Group>, n: nat)
    requires n < |groups|
    ensures AllEdges(c, groups[..n + 1])
         == AllEdges(c, groups[..n]) + InstancesEdges(c, IsArrayGroup(groups[n]), groups[n].instances)
  {
    assert groups[..n + 1][..n] == groups[..n];
  }

  lemma CmpReferentsIsTotalOrder()
    ensures TotalOrder(CmpReferents)
  {
  }

  ghost predicate IsIndex(tree: Tree<int, nat>, marked: seq<Referent>) {
    Indexes(CmpReferents, tree, Addresses(marked))
  }

  // Looking up an address finds its referent, which is unique.
  lemma FindReferent(tree: Tree<int, nat>, marked: seq<Referent>, addr: int)
    requires IsIndex(tree, marked)
    ensures forall k: nat | k < |marked| :: marked[k].addr == addr <==> Find(CmpReferents, tree, addr) == Some(k)
    ensures Find(CmpReferents, tree, addr).Some? ==> Find(CmpReferents, tree, addr).value < |marked|
    ensures Find(CmpReferents, tree, addr).Some? <==> IsMarked(marked, addr)
  {
    CmpReferentsIsTotalOrder();
    FindBy(CmpReferents, tree, marked, addr);
  }

  lemma FindBy(cmp: (int, int) -> int, tree: Tree<int, nat>, marked: seq<Referent>, addr: int)
    requires TotalOrder(cmp) && Indexes(cmp, tree, Addresses(marked))
    ensures forall k: nat | k < |marked| :: marked[k].addr == addr <==> Find(cmp, tree, addr) == Some(k)
    ensures Find(cmp, tree, addr).Some? ==> Find(cmp, tree, addr).value < |marked|
    ensures Find(cmp, tree, addr).Some? <==> IsMarked(marked, addr)
  {
    IndexFinds(cmp, tree, Addresses(marked), addr);
    assert forall k: nat | k < |marked| :: Addresses(marked)[k] == marked[k].addr;
  }

  lemma AddReferent(tree: Tree<int, nat>, marked: seq<Referent>, addr: int)
    requires IsIndex(tree, marked) && !IsMarked(marked, addr)
    ensures IsIndex(Add(CmpReferents, tree, addr, |marked|), marked + [Referent(addr, [])])
  {
    CmpReferentsIsTotalOrder();
    AddBy(CmpReferents, tree, marked, addr);
  }

  lemma AddBy(cmp: (int, int) -> int, tree: Tree<int, nat>, marked: seq<Referent>, addr: int)
    requires TotalOrder(cmp) && Indexes(cmp, tree, Addresses(marked)) && !IsMarked(marked, addr)
    ensures Indexes(cmp, Add(cmp, tree, addr, |marked|), Addresses(marked + [Referent(addr, [])]))
  {
    FindBy(cmp, tree, marked, addr);
    IndexAdd(cmp, tree, Addresses(marked), addr);
    assert Addresses(marked + [Referent(addr, [])]) == Addresses(marked) + [addr];
  }

  ghost predicate IsMarked(marked: seq<Referent>, a: int) {
    exists k :: 0 <= k < |marked| && marked[k].addr == a
  }

  // What is printed: each marked address with its references.
  function Report(marked: seq<Referent>): seq<(int, seq<Reference>)> {
    seq(|marked|, k requires 0 <= k < |marked| => (marked[k].addr, marked[k].references))
  }

  lemma ReportIsMatching(before: seq<Referent>, marked: seq<Referent>, edges: seq<Edge>)
    requires Addresses(before) == Addresses(marked)
    requires forall k | 0 <= k < |marked| :: marked[k].references == Matching(edges, marked[k].addr)
    ensures |Report(marked)| == |before|
    ensures forall k | 0 <= k < |before| :: Report(marked)[k] == (before[k].addr, Matching(edges, before[k].addr))
  {
    assert |Addresses(before)| == |before|;
    assert forall k | 0 <= k < |before| :: Addresses(before)[k] == before[k].addr;
  }

  // Each referent's list holds the references to it among the edges, in order.
  ghost predicate ListsAre(marked: seq<Referent>, seen: seq<Edge>) {
    forall k | 0 <= k < |marked| :: marked[k].references == Matching(seen, marked[k].addr)
  }

  lemma ListsStart(marked: seq<Referent>, addr: int)
    requires ListsAre(marked, [])
    ensures ListsAre(marked + [Referent(addr, [])], [])
  {
  }

  // One more edge, which goes to the referent at position k or to none.
  lemma ListsGrow(marked: seq<Referent>, seen: seq<Edge>, edge: Edge, found: Option<nat>)
    requires ListsAre(marked, seen)
    requires found.Some? ==> found.value < |marked|
    requires forall k: nat | k < |marked| :: edge.value == Tagged(marked[k].addr) <==> found == Some(k)
    ensures ListsAre(if found.Some? then marked[found.value := WithReference(marked[found.value], edge)] else marked,
                     seen + [edge])
  {
    assert (seen + [edge])[..|seen|] == seen;
  }

  function WithReference(referent: Referent, edge: Edge): Referent {
    referent.(references := referent.references + [Reference(edge.from, edge.place)])
  }

  class ReferencePass {
    const contents: Contents
    var referents: Tree<int, nat>       // fjs_referents; its values are positions in `marked`
    var marked: seq<Referent>           // the list from fjs_head to fjs_tail
    var marking: bool                   // fjs_marking
    ghost var seen: seq<Edge>           // the edges gone over in the current pass

    ghost predicate Valid()
      reads this
    {
      IsIndex(referents, marked) && ListsAre(marked, seen)
    }

    constructor (contents: Contents)
      ensures Valid() && seen == [] && marked == [] && this.contents == contents
    {
      this.contents := contents;
      referents, marked, marking, seen := Empty, [], false, [];
    }

    // findjsobjects_referent(), with the -m option or without: mark an address, unless it is marked
    // already.
    method Mark(addr: int, mark: bool)
      requires Valid() && seen == []
      requires !mark ==> !IsMarked(marked, addr)
      modifies this`referents, this`marked, this`marking
      ensures Valid()
      ensures marked == if IsMarked(old(marked), addr) then old(marked) else old(marked) + [Referent(addr, [])]
    {
      marking := mark;
      FindReferent(referents, marked, addr);
      if Find(CmpReferents, referents, addr).Some? {
        assert marking;
        return;
      }
      NewReferent(addr);
    }

    method NewReferent(addr: int)
      requires Valid() && seen == [] && !IsMarked(marked, addr)
      modifies this`referents, this`marked
      ensures Valid() && marked == old(marked) + [Referent(addr, [])]
    {
      AddReferent(referents, marked, addr);
      ListsStart(marked, addr);
      referents := Add(CmpReferents, referents, addr, |marked|);
      marked := marked + [Referent(addr, [])];
    }

    // findjsobjects_references_add()
    method AddReference(edge: Edge)
      requires Valid()
      modifies this`marked, this`seen
      ensures Valid() && seen == old(seen) + [edge]
      ensures Addresses(marked) == Addresses(old(marked))
    {
      if edge.value.UnboxedDouble? {
        ListsGrow(marked, seen, edge, None);
        seen := seen + [edge];
        return;
      }
      FindReferent(referents, marked, edge.value.addr);
      var found := Find(CmpReferents, referents, edge.value.addr);
      ListsGrow(marked, seen, edge, found);
      seen := seen + [edge];
      if found.None? {
        return;
      }
      var referent := marked[found.value];
      referent := referent.(references := referent.references + [Reference(edge.from, edge.place)]);
      marked := marked[found.value := referent];
      assert Addresses(marked) == Addresses(old(marked));
    }

    // jsobj_properties() with findjsobjects_references_prop() as callback, for one object.
    method AddProperties(from: int, calls: seq<PropCall>)
      requires Valid()
      modifies this`marked, this`seen
      ensures Valid() && seen == old(seen) + CallEdges(from, calls)
      ensures Addresses(marked) == Addresses(old(marked))
    {
      assert calls[..0] == [];
      for n := 0 to |calls|
        invariant Valid() && seen == old(seen) + CallEdges(from, calls[..n])
        invariant Addresses(marked) == Addresses(old(marked))
      {
        assert calls[..n + 1][..n] == calls[..n];
        if calls[n].value.Some? {
          AddReference(CallEdge(from, calls[n]));
        }
      }
      assert calls[..|calls|] == calls;
    }

    // The loop over the elements in findjsobjects_references_array(), for one array.
    method AddElements(from: int, elements: seq<int>)
      requires Valid()
      modifies this`marked, this`seen
      ensures Valid() && seen == old(seen) + ElementEdges(from, elements)
      ensures Addresses(marked) == Addresses(old(marked))
    {
      for n := 0 to |elements|
        invariant Valid() && seen == old(seen) + ElementEdges(from, elements[..n])
        invariant Addresses(marked) == Addresses(old(marked))
      {
        assert ElementEdges(from, elements[..n + 1])
            == ElementEdges(from, elements[..n]) + [Edge(from, At(n), Tagged(elements[n]))];
        AddReference(Edge(from, At(n), Tagged(elements[n])));
      }
      assert elements[..|elements|] == elements;
    }

    // One object of a group.
    method AddInstance(ofArray: bool, addr: int)
      requires Valid()
      modifies this`marked, this`seen
      ensures Valid() && seen == old(seen) + InstanceEdges(contents, ofArray, addr)
      ensures Addresses(marked) == Addresses(old(marked))
    {
      if ofArray {
        var elements := contents.elements(addr);
        if elements.Some? {
          AddElements(addr, elements.value);
        }
      } else {
        AddProperties(addr, contents.inspect(addr).calls);
      }
    }

    // The objects of one group.
    method AddInstances(ofArray: bool, instances: seq<int>)
      requires Valid()
      modifies this`marked, this`seen
      ensures Valid() && seen == old(seen) + InstancesEdges(contents, ofArray, instances)
      ensures Addresses(marked) == Addresses(old(marked))
    {
      for n := 0 to |instances|
        invariant Valid() && seen == old(seen) + InstancesEdges(contents, ofArray, instances[..n])
        invariant Addresses(marked) == Addresses(old(marked))
      {
        InstancesEdgesSnoc(contents, ofArray, instances, n, old(seen));
        AddInstance(ofArray, instances[n]);
      }
      assert instances[..|instances|] == instances;
    }

    // findjsobjects_references(): go over everything found, report what refers to each marked
    // address, in the order of marking, and forget the marks.
    method References(groups: seq<Group>) returns (report: seq<(int, seq<Reference>)>)
      requires Valid() && seen == []
      modifies this
      ensures |report| == |old(marked)|
      ensures forall k | 0 <= k < |report| ::
                report[k] == (old(marked)[k].addr, Matching(AllEdges(contents, groups), old(marked)[k].addr))
      ensures Valid() && referents == Empty && marked == [] && seen == []
    {
      for n := 0 to |groups|
        invariant Valid() && seen == AllEdges(contents, groups[..n])
        invariant Addresses(marked) == Addresses(old(marked))
      {
        AllEdgesSnoc(contents, groups, n);
        AddInstances(IsArrayGroup(groups[n]), groups[n].instances);
      }
      assert groups[..|groups|] == groups;
      report := Report(marked);
      ReportIsMatching(old(marked), marked, seen);
      referents := Empty;
      marked := [];
      seen := [];
    }
  }

  function Addresses(marked: seq<Referent>): seq<int> {
    seq(|marked|, i requires 0 <= i < |marked| => marked[i].addr)
  }

  lemma {:induction false} MatchingIsExact(edges: seq<Edge>, addr: int)
    ensures forall r :: r in Matching(edges, addr) <==>
              exists e :: e in edges && e.value == Tagged(addr) && r == Reference(e.from, e.place)
  {
    if edges != [] {
      var n := |edges| - 1;
      assert edges == edges[..n] + [edges[n]];
      MatchingIsExact(edges[..n], addr);
    }
  }

  // And they are in the order of the edges, each as often as it is found.
  lemma {:induction false} MatchingIsInOrder(edges: seq<Edge>, addr: int) returns (at: seq<nat>)
    ensures forall i, j | 0 <= i < j < |at| :: at[i] < at[j]
    ensures forall n: nat :: n in at <==> n < |edges| && edges[n].value == Tagged(addr)
    ensures |at| == |Matching(edges, addr)|
    ensures forall k | 0 <= k < |at| ::
              at[k] < |edges| && Matching(edges, addr)[k] == Reference(edges[at[k]].from, edges[at[k]].place)
  {
    at := [];
    if edges != [] {
      var n := |edges| - 1;
      at := MatchingIsInOrder(edges[..n], addr);
      assert forall k | 0 <= k < |at| :: at[k] in at;
      if edges[n].value == Tagged(addr) {
        at := at + [n];
      }
    }
  }

  // The edges are the properties of an object that have a value, at the given places and in order.
  ghost predicate AreEdges(edges: seq<Edge>, calls: seq<PropCall>, at: seq<nat>) {
    && (forall i, j | 0 <= i < j < |at| :: at[i] < at[j])
    && (forall n: nat :: n in at <==> n < |calls| && calls[n].value.Some?)
    && |at| == |edges|
    && forall k | 0 <= k < |at| :: at[k] < |calls| && Some(edges[k].value) == calls[at[k]].value
  }

  lemma {:induction false} CallEdgesAreInOrder(from: int, calls: seq<PropCall>) returns (at: seq<nat>)
    ensures AreEdges(CallEdges(from, calls), calls, at)
  {
    at := [];
    if calls != [] {
      var n := |calls| - 1;
      at := CallEdgesAreInOrder(from, calls[..n]);
      assert calls == calls[..n] + [calls[n]];
      OneMoreEdge(from, CallEdges(from, calls[..n]), calls[..n], calls[n], at);
      if calls[n].value.Some? {
        at := at + [n];
      }
    }
  }

  lemma OneMoreEdge(from: int, edges: seq<Edge>, calls: seq<PropCall>, call: PropCall, at: seq<nat>)
    requires AreEdges(edges, calls, at)
    ensures if call.value.Some? then AreEdges(edges + [CallEdge(from, call)], calls + [call], at + [|calls|])
            else AreEdges(edges, calls + [call], at)
  {
    assert forall k | 0 <= k < |at| :: at[k] in at;
  }

  // The edges of the objects follow one another in the order of the groups.
  lemma {:induction false} AllEdgesConcat(c: Contents, groups: seq<Group>, others: seq<Group>)
    ensures AllEdges(c, groups + others) == AllEdges(c, groups) + AllEdges(c, others)
  {
    if others == [] {
      assert groups + others == groups;
    } else {
      var n := |others| - 1;
      AllEdgesConcat(c, groups, others[..n]);
      assert (groups + others)[..|groups| + n] == groups + others[..n];
      Associative(AllEdges(c, groups), AllEdges(c, others[..n]),
                  InstancesEdges(c, IsArrayGroup(others[n]), others[n].instances));
    }
  }

  lemma {:induction false} InstancesEdgesConcat(c: Contents, ofArray: bool, s: seq<int>, t: seq<int>)
    ensures InstancesEdges(c, ofArray, s + t) == InstancesEdges(c, ofArray, s) + InstancesEdges(c, ofArray, t)
  {
    if t == [] {
      assert s + t == s;
    } else {
      var n := |t| - 1;
      InstancesEdgesConcat(c, ofArray, s, t[..n]);
      assert (s + t)[..|s| + n] == s + t[..n];
      Associative(InstancesEdges(c, ofArray, s), InstancesEdges(c, ofArray, t[..n]), InstanceEdges(c, ofArray, t[n]));
    }
  }

  lemma {:induction false} InstancesEdgesAreExact(c: Contents, ofArray: bool, instances: seq<int>)
    ensures forall e :: e in InstancesEdges(c, ofArray, instances) <==>
              exists a :: a in instances && e in InstanceEdges(c, ofArray, a)
  {
    if instances != [] {
      var n := |instances| - 1;
      assert instances == instances[..n] + [instances[n]];
      InstancesEdgesAreExact(c, ofArray, instances[..n]);
    }
  }

  lemma {:induction false} AllEdgesAreExact(c: Contents, groups: seq<Group>)
    ensures forall e :: e in AllEdges(c, groups) <==>
              exists g, a :: g in groups && a in g.instances && e in InstanceEdges(c, IsArrayGroup(g), a)
  {
    if groups != [] {
      var n := |groups| - 1;
      assert groups == groups[..n] + [groups[n]];
      AllEdgesAreExact(c, groups[..n]);
      InstancesEdgesAreExact(c, IsArrayGroup(groups[n]), groups[n].instances);
    }
  }

  // A reference is reported for an address exactly when brute force over all objects of all
  // groups finds a property or element there whose tagged value is that address.
  lemma ReportedIffFoundByBruteForce(c: Contents, groups: seq<Group>, addr: int, r: Reference)
    ensures r in Matching(AllEdges(c, groups), addr) <==>
              exists g :: g in groups && r.addr in g.instances && HasEdge(c, IsArrayGroup(g), r, addr)
  {
    AllEdgesAreExact(c, groups);
    MatchingIsExact(AllEdges(c, groups), addr);
    forall g, a | g in groups ensures forall e | e in InstanceEdges(c, IsArrayGroup(g), a) :: e.from == a {
      EdgesStartAt(c, IsArrayGroup(g), a);
    }
  }

  lemma EdgesStartAt(c: Contents, ofArray: bool, a: int)
    ensures forall e | e in InstanceEdges(c, ofArray, a) :: e.from == a
  {
    if !ofArray {
      CallEdgesStartAt(a, c.inspect(a).calls);
    }
  }

  lemma {:induction false} CallEdgesStartAt(a: int, calls: seq<PropCall>)
    ensures forall e | e in CallEdges(a, calls) :: e.from == a
  {
    if calls != [] {
      CallEdgesStartAt(a, calls[..|calls| - 1]);
    }
  }

  // The total number of properties of a group's instances, in a size_t.
  function Product(g: Group): int {
    g.ninstances * g.sig.nprops % SIZE_MODULUS
  }

  // findjsobjects_cmp_ninstances(): by total number of properties, then by number of instances,
  // then by number of properties.
  function CmpNInstances(l: Group, r: Group): int {
    var lprod, rprod := Product(l), Product(r);
    if lprod != rprod then (if lprod < rprod then -1 else 1)
    else if l.ninstances != r.ninstances then (if l.ninstances < r.ninstances then -1 else 1)
    else if l.sig.nprops != r.sig.nprops then (if l.sig.nprops < r.sig.nprops then -1 else 1)
    else 0
  }

  // The report goes from small groups to large ones: by the number of all their properties, then of
  // their instances, then of the properties of one instance.
  predicate NoMoreThan(l: Group, r: Group) {
    var m, n := l.ninstances * l.sig.nprops % 0x1_0000_0000_0000_0000,
                r.ninstances * r.sig.nprops % 0x1_0000_0000_0000_0000;
    m < n || (m == n && (l.ninstances < r.ninstances || (l.ninstances == r.ninstances && l.sig.nprops <= r.sig.nprops)))
  }

  lemma CmpNInstancesIff(l: Group, r: Group)
    ensures CmpNInstances(l, r) <= 0 <==> NoMoreThan(l, r)
  {
    assert Product(l) == l.ninstances * l.sig.nprops % 0x1_0000_0000_0000_0000;
    assert Product(r) == r.ninstances * r.sig.nprops % 0x1_0000_0000_0000_0000;
  }

  ghost predicate Preorder<T(!new)>(cmp: (T, T) -> int) {
    && (forall a, b :: cmp(a, b) <= 0 || cmp(b, a) <= 0)
    && (forall a, b, c :: cmp(a, b) <= 0 && cmp(b, c) <= 0 ==> cmp(a, c) <= 0)
  }

  lemma CmpNInstancesIsPreorder()
    ensures Preorder(CmpNInstances)
  {
  }

  ghost predicate SortedBy<T>(cmp: (T, T) -> int, s: seq<T>) {
    forall i, j | 0 <= i < j < |s| :: cmp(s[i], s[j]) <= 0
  }

  // qsort(), as an insertion sort.
  method QSort<T(!new)>(cmp: (T, T) -> int, s: seq<T>) returns (sorted: seq<T>)
    requires Preorder(cmp)
    ensures SortedBy(cmp, sorted) && multiset(sorted) == multiset(s)
  {
    sorted := [];
    for n := 0 to |s|
      invariant SortedBy(cmp, sorted) && multiset(sorted) == multiset(s[..n])
    {
      assert s[..n + 1] == s[..n] + [s[n]];
      sorted := Insert(cmp, sorted, s[n]);
    }
    assert s[..|s|] == s;
  }

  method Insert<T(!new)>(cmp: (T, T) -> int, sorted: seq<T>, x: T) returns (more: seq<T>)
    requires Preorder(cmp) && SortedBy(cmp, sorted)
    ensures SortedBy(cmp, more) && multiset(more) == multiset(sorted) + multiset{x}
  {
    var i := 0;
    while i < |sorted| && cmp(sorted[i], x) <= 0
      invariant i <= |sorted| && forall j | 0 <= j < i :: cmp(sorted[j], x) <= 0
    {
      i := i + 1;
    }
    InsertedIsSorted(cmp, sorted, i, x);
    more := sorted[..i] + [x] + sorted[i..];
    assert sorted == sorted[..i] + sorted[i..];
  }

  lemma InsertedIsSorted<T(!new)>(cmp: (T, T) -> int, sorted: seq<T>, i: nat, x: T)
    requires Preorder(cmp) && SortedBy(cmp, sorted) && i <= |sorted|
    requires forall j | 0 <= j < i :: cmp(sorted[j], x) <= 0
    requires i < |sorted| ==> cmp(x, sorted[i]) <= 0
    ensures SortedBy(cmp, sorted[..i] + [x] + sorted[i..])
  {
    forall j | i < j < |sorted| ensures cmp(x, sorted[j]) <= 0 {
      Transitive(cmp, x, sorted[i], sorted[j]);
    }
    AroundIsSorted(cmp, sorted, i, x);
  }

  lemma Transitive<T(!new)>(cmp: (T, T) -> int, a: T, b: T, c: T)
    requires Preorder(cmp) && cmp(a, b) <= 0 && cmp(b, c) <= 0
    ensures cmp(a, c) <= 0
  {
  }

  lemma AroundIsSorted<T>(cmp: (T, T) -> int, sorted: seq<T>, i: nat, x: T)
    requires SortedBy(cmp, sorted) && i <= |sorted|
    requires forall j | 0 <= j < i :: cmp(sorted[j], x) <= 0
    requires forall j | i <= j < |sorted| :: cmp(x, sorted[j]) <= 0
    ensures SortedBy(cmp, sorted[..i] + [x] + sorted[i..])
  {
  }

  // The sort at the end of findjsobjects_run() reorders the groups and loses none.
  method SortGroups(groups: seq<Group>) returns (sorted: seq<Group>)
    ensures multiset(sorted) == multiset(groups)
    ensures forall i, j | 0 <= i < j < |sorted| :: NoMoreThan(sorted[i], sorted[j])
  {
    CmpNInstancesIsPreorder();
    sorted := QSort(CmpNInstances, groups);
    forall i, j | 0 <= i < j < |sorted| ensures NoMoreThan(sorted[i], sorted[j]) {
      CmpNInstancesIff(sorted[i], sorted[j]);
    }
  }

  // What is reported does not depend on the order that sorting leaves the groups in.
  lemma ReportIsOrderIndependent(c: Contents, groups: seq<Group>, sorted: seq<Group>, addr: int, r: Reference)
    requires multiset(sorted) == multiset(groups)
    ensures r in Matching(AllEdges(c, sorted), addr) <==> r in Matching(AllEdges(c, groups), addr)
  {
    ReportedIffFoundByBruteForce(c, groups, addr, r);
    ReportedIffFoundByBruteForce(c, sorted, addr, r);
    assert forall g :: g in sorted <==> g in multiset(sorted);
    assert forall g :: g in groups <==> g in multiset(groups);
  }

  ghost predicate HasEdge(c: Contents, ofArray: bool, r: Reference, target: int) {
    exists e :: e in InstanceEdges(c, ofArray, r.addr) && e.value == Tagged(target) && r == Reference(e.from, e.place)
  }

  // An element of an array has the value.
  ghost predicate IsElement(elements: Option<seq<int>>, place: Place, target: int) {
    elements.Some? && exists i: nat :: i < |elements.value| && elements.value[i] == target && place == At(i)
  }

  // A property has the value, as a tagged one: its place is its name, or -1 if it has none.
  ghost predicate IsProperty(calls: seq<PropCall>, place: Place, target: int) {
    exists k :: 0 <= k < |calls| && Gives(calls[k], place, target)
  }

  predicate Gives(call: PropCall, place: Place, target: int) {
    && call.value == Some(Tagged(target))
    && match call.desc
       case Some(name) => place == Named(name)
       case None => place == At(0xFFFF_FFFF_FFFF_FFFF)
  }

  // In terms of memory: an accepted object in a readable range has an element or a property whose
  // tagged value is the target.  The elements count for arrays that are not empty.
  ghost predicate RefersTo(heap: Heap, elements: int -> Option<seq<int>>, ranges: seq<(int, nat)>, r: Reference,
                           target: int)
  {
    && Classify(heap, r.addr).Some?
    && (exists range :: range in ranges && heap.core.Readable(range.0, range.1)
                     && range.0 <= r.addr < range.0 + range.1)
    && if IsArray(heap, r.addr) && Classify(heap, r.addr).value.nprops > 0
       then IsElement(elements(r.addr), r.place, target)
       else IsProperty(heap.inspect(r.addr).calls, r.place, target)
  }

  lemma {:induction false} CallEdgesAreExact(from: int, calls: seq<PropCall>, target: int, place: Place)
    ensures Edge(from, place, Tagged(target)) in CallEdges(from, calls) <==> IsProperty(calls, place, target)
  {
    if calls != [] {
      var n := |calls| - 1;
      CallEdgesAreExact(from, calls[..n], target, place);
      if IsProperty(calls[..n], place, target) {
        var k :| 0 <= k < n && Gives(calls[..n][k], place, target);
        assert calls[k] == calls[..n][k];
      }
      if IsProperty(calls, place, target) {
        var k :| 0 <= k < |calls| && Gives(calls[k], place, target);
        assert k < n ==> calls[..n][k] == calls[k];
      }
    }
  }

  lemma HasEdgeIff(c: Contents, ofArray: bool, r: Reference, target: int)
    ensures HasEdge(c, ofArray, r, target) <==>
              if ofArray then IsElement(c.elements(r.addr), r.place, target)
              else IsProperty(c.inspect(r.addr).calls, r.place, target)
  {
    var e := Edge(r.addr, r.place, Tagged(target));
    assert HasEdge(c, ofArray, r, target) <==> e in InstanceEdges(c, ofArray, r.addr) by {
      EdgesStartAt(c, ofArray, r.addr);
    }
    if ofArray {
      if c.elements(r.addr).Some? {
        ElementEdgesAreExact(r.addr, c.elements(r.addr).value, r.place, target);
      }
    } else {
      CallEdgesAreExact(r.addr, c.inspect(r.addr).calls, target, r.place);
    }
  }

  lemma ElementEdgesAreExact(from: int, elements: seq<int>, place: Place, target: int)
    ensures Edge(from, place, Tagged(target)) in ElementEdges(from, elements)
       <==> IsElement(Some(elements), place, target)
  {
    var edges := ElementEdges(from, elements);
    if IsElement(Some(elements), place, target) {
      var i: nat :| i < |elements| && elements[i] == target && place == At(i);
      assert edges[i] == Edge(from, place, Tagged(target));
    }
  }

  // The instances of a group have its signature.
  lemma InstancesHaveSignature(classify: Classification, groups: seq<Group>, log: seq<int>, g: Group, a: int)
    requires Partition(classify, groups, log) && g in groups && a in g.instances
    ensures classify(a) == Some(g.sig)
  {
    var i :| 0 <= i < |groups| && groups[i] == g;
    GroupIsExact(classify, groups[i], log, a);
  }

  lemma ReportedIffHeld(classify: Classification, c: Contents, groups: seq<Group>, log: seq<int>, r: Reference,
                        target: int)
    requires Partition(classify, groups, log)
    ensures r in Matching(AllEdges(c, groups), target)
       <==> IsHeld(groups, r.addr) && classify(r.addr).Some?
            && HasEdge(c, IsArraySignature(classify(r.addr).value), r, target)
  {
    ReportedIffFoundByBruteForce(c, groups, target, r);
    forall g | g in groups && r.addr in g.instances ensures classify(r.addr) == Some(g.sig) && IsHeld(groups, r.addr) {
      InstancesHaveSignature(classify, groups, log, g, r.addr);
      var i :| 0 <= i < |groups| && groups[i] == g;
    }
    if IsHeld(groups, r.addr) {
      var i :| 0 <= i < |groups| && r.addr in groups[i].instances;
      assert groups[i] in groups;
    }
  }

  // Arrays that are not empty are known by their signature.
  lemma ArraysAreKnownBySignature(heap: Heap, a: int)
    requires Classify(heap, a).Some?
    ensures IsArraySignature(Classify(heap, a).value)
       <==> IsArray(heap, a) && Classify(heap, a).value.nprops > 0
  {
  }

  lemma ReportedIffRefersTo(heap: Heap, elements: int -> Option<seq<int>>, ranges: seq<(int, nat)>,
                            groups: seq<Group>, r: Reference, target: int)
    requires Partition(Classifier(heap), groups, ScanAllLog(heap.core, Classifier(heap), [], ranges))
    ensures r in Matching(AllEdges(Contents(heap.inspect, elements), groups), target)
       <==> RefersTo(heap, elements, ranges, r, target)
  {
    var classify, c := Classifier(heap), Contents(heap.inspect, elements);
    var log := ScanAllLog(heap.core, classify, [], ranges);
    ReportedIffHeld(classify, c, groups, log, r, target);
    ScanIsExact(heap.core, classify, ranges);
    LogIsHeld(classify, groups, log);
    if Classify(heap, r.addr).Some? {
      ArraysAreKnownBySignature(heap, r.addr);
      HasEdgeIff(c, IsArraySignature(Classify(heap, r.addr).value), r, target);
    }
  }

  // From a memory image to the report: find the objects, sort the groups, mark the addresses and go
  // over everything found.  For each marked address exactly the references in memory are reported.
  method ReportReferences(heap: Heap, elements: int -> Option<seq<int>>, ranges: seq<(int, nat)>, targets: seq<int>)
    returns (report: seq<(int, seq<Reference>)>)
    ensures forall a :: a in targets <==> exists k :: 0 <= k < |report| && report[k].0 == a
    ensures forall k, r | 0 <= k < |report| ::
              r in report[k].1 <==> RefersTo(heap, elements, ranges, r, report[k].0)
  {
    var js := FindAll(heap, ranges);
    var groups := js.groups;
    var sorted := SortGroups(groups);
    var c := Contents(heap.inspect, elements);
    var pass := new ReferencePass(c);
    MarkAll(pass, targets);
    ghost var marked := pass.marked;
    report := pass.References(sorted);
    MarksAreReported(marked, report);
    ReportsAreRight(heap, elements, ranges, groups, sorted, report);
  }

  lemma MarksAreReported(marked: seq<Referent>, report: seq<(int, seq<Reference>)>)
    requires |report| == |marked| && forall k | 0 <= k < |report| :: report[k].0 == marked[k].addr
    ensures forall a :: IsMarked(marked, a) <==> exists k :: 0 <= k < |report| && report[k].0 == a
  {
    forall a ensures IsMarked(marked, a) <==> exists k :: 0 <= k < |report| && report[k].0 == a {
      if IsMarked(marked, a) {
        var k :| 0 <= k < |marked| && marked[k].addr == a;
        assert report[k].0 == a;
      }
    }
  }

  lemma ReportsAreRight(heap: Heap, elements: int -> Option<seq<int>>, ranges: seq<(int, nat)>,
                        groups: seq<Group>, sorted: seq<Group>, report: seq<(int, seq<Reference>)>)
    requires Partition(Classifier(heap), groups, ScanAllLog(heap.core, Classifier(heap), [], ranges))
    requires multiset(sorted) == multiset(groups)
    requires forall k | 0 <= k < |report| ::
               report[k].1 == Matching(AllEdges(Contents(heap.inspect, elements), sorted), report[k].0)
    ensures forall k, r | 0 <= k < |report| ::
              r in report[k].1 <==> RefersTo(heap, elements, ranges, r, report[k].0)
  {
    forall k, r | 0 <= k < |report|
      ensures r in report[k].1 <==> RefersTo(heap, elements, ranges, r, report[k].0)
    {
      ReportIsOrderIndependent(Contents(heap.inspect, elements), groups, sorted, report[k].0, r);
      ReportedIffRefersTo(heap, elements, ranges, groups, r, report[k].0);
    }
  }

  method MarkAll(pass: ReferencePass, targets: seq<int>)
    requires pass.Valid() && pass.seen == [] && pass.marked == []
    modifies pass
    ensures pass.Valid() && pass.seen == []
    ensures forall a :: IsMarked(pass.marked, a) <==> a in targets
  {
    for n := 0 to |targets|
      invariant pass.Valid() && pass.seen == []
      invariant forall a :: IsMarked(pass.marked, a) <==> a in targets[..n]
    {
      ghost var before := pass.marked;
      pass.Mark(targets[n], true);
      MarkedMore(before, pass.marked, targets[n]);
      assert targets[..n + 1] == targets[..n] + [targets[n]];
    }
    assert targets[..|targets|] == targets;
  }

  lemma MarkedMore(before: seq<Referent>, after: seq<Referent>, addr: int)
    requires after == if IsMarked(before, addr) then before else before + [Referent(addr, [])]
    ensures forall a :: IsMarked(after, a) <==> IsMarked(before, a) || a == addr
  {
    forall a ensures IsMarked(after, a) <==> IsMarked(before, a) || a == addr {
      if !IsMarked(before, addr) {
        assert after[|before|].addr == addr;
        if IsMarked(before, a) {
          var k :| 0 <= k < |before| && before[k].addr == a;
          assert after[k].addr == a;
        }
      }
    }
  }
}
