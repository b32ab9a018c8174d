// findjsobjects: grouping the objects found in memory by what they look like
// (src/mdb_v8.c:4694-4843, 4894-4922, 5019-5149).

module FindObjects {
  import opened Wrappers
  import opened StringBuffer
  import opened CoreFile
  import opened OrderedTree
  import opened Signatures
  import opened PropCalls
  import WhatIs

  // A memory image with the results of the routines that inspect one object.
  datatype Heap = Heap(core: Core, inspect: int -> Inspection, constructorName: int -> string)

  // findjsobjects_prop(), called for each property in turn.
  datatype Building = Building(props: seq<string>, nprops: nat, malformed: bool) {
    function Add(call: PropCall): Building {
      var desc := if call.desc.None? then "<unknown>" else call.desc.value;
      Building(props + [desc], nprops + 1, call.value.None? && nprops + 1 == 1 && desc != "" && desc[0] == '<')
    }
  }

  function DescOf(call: PropCall): string {
    if call.desc.None? then "<unknown>" else call.desc.value
  }

  function Descs(calls: seq<PropCall>): seq<string> {
    seq(|calls|, i requires 0 <= i < |calls| => DescOf(calls[i]))
  }

  // An object whose layout was not recognised is reported by one call without a value.
  predicate OnlyPlaceholder(calls: seq<PropCall>) {
    |calls| == 1 && calls[0].value.None? && DescOf(calls[0]) != "" && DescOf(calls[0])[0] == '<'
  }

  // The signature of a JSObject: its property names in order, and whether it is to be trusted.
  function ObjectSignature(seen: Inspection, name: string): Signature {
    Signature(seen.garbage || OnlyPlaceholder(seen.calls), Descs(seen.calls), |seen.calls|, name)
  }

  // The checks on a JSArray, and its length if they succeed.
  function ArrayLength(core: Core, addr: int): Option<nat>
  {
    match (core.ReadHeapSmi(addr, core.k.offJSArrayLength), core.ReadHeapPtr(addr, core.k.offJSObjectElements))
    case (Some(nprops), Some(elements)) =>
      (match WhatIs.FixedArrayLength(core, elements)
       case None => None
       case Some(nelems) => if nelems < nprops then None else Some(nprops))
    case _ => None
  }

  // What an address is grouped by, if it is accepted.
  function Classify(heap: Heap, addr: int): Option<Signature>
  {
    var k := heap.core.k;
    if !IsHeapObject(addr) || heap.core.ReadTypeByte(addr).None? then None
    else
      var t := heap.core.ReadTypeByte(addr).value;
      if t == k.typeJSFunction then None
      else if t == k.typeJSObject || t == k.typeJSTypedArray then
        if heap.inspect(addr).ok then Some(ObjectSignature(heap.inspect(addr), heap.constructorName(addr))) else None
      else if t == k.typeJSArray then
        match ArrayLength(heap.core, addr)
        case None => None
        case Some(n) => Some(Signature(false, [], n, "Array"))
      else None
  }

  // A JSArray of length n in memory, and the m elements that its FixedArray has room for.
  ghost predicate HasArray(core: Core, a: int, n: nat, m: nat) {
    && HasType(core, a, core.k.typeJSArray) && HasSmi(core, a + core.k.offJSArrayLength, n)
    && exists elements: nat ::
         && HasWord(core, a + core.k.offJSObjectElements, elements) && IsHeapObject(elements)
         && HasType(core, elements, core.k.typeFixedArray) && HasSmi(core, elements + core.k.offFixedArrayLength, m)
  }

  // An array is accepted exactly if it has no more elements than there is room for, spare room or
  // not, and then it is grouped by its length alone.
  lemma ArrayIsAcceptedIff(heap: Heap, a: int, n: nat, m: nat)
    requires IsHeapObject(a) && HasArray(heap.core, a, n, m)
    requires heap.core.k.typeJSArray !in OtherTypes(heap.core.k)
    ensures Classify(heap, a) == if n <= m then Some(Signature(false, [], n, "Array")) else None
  {
    var core, k := heap.core, heap.core.k;
    TypeIsRead(core, a, k.typeJSArray);
    SmiIsRead(core, a, k.offJSArrayLength, n);
    var elements: nat :| HasWord(core, a + k.offJSObjectElements, elements) && IsHeapObject(elements)
                      && HasType(core, elements, k.typeFixedArray)
                      && HasSmi(core, elements + k.offFixedArrayLength, m);
    TypeIsRead(core, elements, k.typeFixedArray);
    SmiIsRead(core, elements, k.offFixedArrayLength, m);
  }

  // The types whose objects are not arrays, as far as the scan is concerned.
  function OtherTypes(k: Constants): set<Byte> {
    {k.typeJSObject, k.typeJSTypedArray, k.typeJSFunction}
  }

  // The name under which a property is noted.
  ghost predicate IsNamed(call: PropCall, name: string) {
    match call.desc
    case Some(desc) => name == desc
    case None => name == "<unknown>"
  }

  // A JSObject or typed array is accepted exactly if its properties can be read, and then it is
  // grouped by their names in order, by its constructor, and by whether it is to be trusted.
  lemma ObjectIsAcceptedIff(heap: Heap, a: int, t: Byte)
    requires IsHeapObject(a) && HasType(heap.core, a, t)
    requires t in {heap.core.k.typeJSObject, heap.core.k.typeJSTypedArray} && t != heap.core.k.typeJSFunction
    ensures Classify(heap, a).Some? <==> heap.inspect(a).ok
    ensures Classify(heap, a).Some? ==>
              var sig, calls := Classify(heap, a).value, heap.inspect(a).calls;
              && |sig.props| == sig.nprops == |calls| && sig.constructor_ == heap.constructorName(a)
              && (forall i | 0 <= i < |calls| :: IsNamed(calls[i], sig.props[i]))
              && (sig.malformed <==>
                    heap.inspect(a).garbage || (|calls| == 1 && calls[0].value.None? && "<" <= sig.props[0]))
  {
    TypeIsRead(heap.core, a, t);
  }

  // Nothing else is accepted.
  lemma OnlyObjectsAreAccepted(heap: Heap, a: int)
    requires Classify(heap, a).Some?
    ensures var k := heap.core.k;
            && IsHeapObject(a)
            && exists t :: HasType(heap.core, a, t) && t != k.typeJSFunction
                        && t in {k.typeJSObject, k.typeJSTypedArray, k.typeJSArray}
  {
    TypeIsRead(heap.core, a, heap.core.ReadTypeByte(a).value);
  }

  // An accepted address is counted as an array or as an object, and possibly as garbage.
  predicate IsArray(heap: Heap, addr: int) {
    heap.core.ReadTypeByte(addr).Some?
    && heap.core.ReadTypeByte(addr).value !in {heap.core.k.typeJSObject, heap.core.k.typeJSTypedArray}
  }

  predicate IsGarbage(heap: Heap, addr: int) {
    !IsArray(heap, addr) && heap.inspect(addr).garbage
  }

  function Arrays(heap: Heap, log: seq<int>): nat {
    if log == [] then 0 else Arrays(heap, log[..|log| - 1]) + if IsArray(heap, log[|log| - 1]) then 1 else 0
  }

  function Garbage(heap: Heap, log: seq<int>): nat {
    if log == [] then 0 else Garbage(heap, log[..|log| - 1]) + if IsGarbage(heap, log[|log| - 1]) then 1 else 0
  }

  lemma CountsSnoc(heap: Heap, log: seq<int>, addr: int)
    ensures Arrays(heap, log + [addr]) == Arrays(heap, log) + if IsArray(heap, addr) then 1 else 0
    ensures Garbage(heap, log + [addr]) == Garbage(heap, log) + if IsGarbage(heap, addr) then 1 else 0
  {
    assert (log + [addr])[..|log|] == log;
  }

  function Classifier(heap: Heap): int -> Option<Signature>
  {
    addr => Classify(heap, addr)
  }

  // What is accepted is an array by type, and garbage if its inspection said so.
  lemma ArraysAreKnownByType(heap: Heap, a: int)
    requires Classify(heap, a).Some?
    ensures HasType(heap.core, a, heap.core.k.typeJSArray) && heap.core.k.typeJSArray !in OtherTypes(heap.core.k)
       <==> IsArray(heap, a)
    ensures IsGarbage(heap, a) <==> heap.inspect(a).garbage && !IsArray(heap, a)
  {
    TypeIsRead(heap.core, a, heap.core.k.typeJSArray);
  }

  // The places in a log at which addresses of some kind have been filed.
  function Places(kind: int -> bool, log: seq<int>): set<int> {
    set i | 0 <= i < |log| && kind(log[i])
  }

  lemma PlacesSnoc(kind: int -> bool, log: seq<int>, a: int)
    ensures |Places(kind, log + [a])| == |Places(kind, log)| + if kind(a) then 1 else 0
  {
    assert Places(kind, log + [a]) == Places(kind, log) + if kind(a) then {|log|} else {};
  }

  function ArrayTest(heap: Heap): int -> bool {
    a => IsArray(heap, a)
  }

  function GarbageTest(heap: Heap): int -> bool {
    a => IsGarbage(heap, a)
  }

  // The counts are numbers of filings.
  lemma {:induction false} FilingsAreCounted(heap: Heap, log: seq<int>)
    ensures Arrays(heap, log) == |Places(ArrayTest(heap), log)|
    ensures Garbage(heap, log) == |Places(GarbageTest(heap), log)|
  {
    if log != [] {
      var n := |log| - 1;
      FilingsAreCounted(heap, log[..n]);
      PlacesSnoc(ArrayTest(heap), log[..n], log[n]);
      PlacesSnoc(GarbageTest(heap), log[..n], log[n]);
      assert log[..n] + [log[n]] == log;
    }
  }

  // A name for the classification under which its definition need not be consulted.
  ghost predicate Agrees(classify: int -> Option<Signature>, heap: Heap) {
    forall a {:trigger Classify(heap, a)} :: classify(a) == Classify(heap, a)
  }

  // How objects are grouped, by address.
  type Classification = int -> Option<Signature>

  // The log after a range has been scanned: its accepted addresses are added in order.
  function Logged(classify: Classification, log: seq<int>, lo: int, hi: int): seq<int>
    decreases hi - lo
  {
    if lo >= hi then log
    else
      var before := Logged(classify, log, lo, hi - 1);
      if classify(hi - 1).Some? then before + [hi - 1] else before
  }

  // Ranges that cannot be read are skipped.
  function ScanLog(core: Core, classify: Classification, log: seq<int>, base: int, size: nat): seq<int> {
    if core.Readable(base, size) then Logged(classify, log, base, base + size) else log
  }

  function ScanAllLog(core: Core, classify: Classification, log: seq<int>, ranges: seq<(int, nat)>): seq<int> {
    if ranges == [] then log
    else
      var n := |ranges| - 1;
      ScanLog(core, classify, ScanAllLog(core, classify, log, ranges[..n]), ranges[n].0, ranges[n].1)
  }

  // An address is filed if and only if it is in a readable range and is accepted.
  lemma {:induction false} LoggedIsExact(classify: Classification, log: seq<int>, lo: int, hi: int)
    ensures forall a :: a in Logged(classify, log, lo, hi) <==> a in log || (lo <= a < hi && classify(a).Some?)
    decreases hi - lo
  {
    if lo < hi {
      LoggedIsExact(classify, log, lo, hi - 1);
    }
  }

  lemma {:induction false} ScanIsExact(core: Core, classify: Classification, ranges: seq<(int, nat)>)
    ensures forall a :: a in ScanAllLog(core, classify, [], ranges) <==>
              classify(a).Some? && exists r :: r in ranges && core.Readable(r.0, r.1) && r.0 <= a < r.0 + r.1
  {
    if ranges != [] {
      var n := |ranges| - 1;
      var before, last := ranges[..n], ranges[n];
      assert ranges == before + [last];
      ScanIsExact(core, classify, before);
      LoggedIsExact(classify, ScanAllLog(core, classify, [], before), last.0, last.0 + last.1);
    }
  }

  // The addresses with a given signature.
  function WithSignature(classify: Classification, log: seq<int>, sig: Signature): seq<int> {
    if log == [] then []
    else
      var n := |log| - 1;
      var before := WithSignature(classify, log[..n], sig);
      if classify(log[n]) == Some(sig) then before + [log[n]] else before
  }

  // How an instance list runs: the first instance, then the others from newest to oldest.
  function InstanceList(addrs: seq<int>): (list: seq<int>)
    ensures |list| == |addrs|
  {
    if |addrs| <= 1 then addrs
    else
      var rest := InstanceList(addrs[..|addrs| - 1]);
      [rest[0], addrs[|addrs| - 1]] + rest[1..]
  }

  // A findjsobjects_obj_t.
  datatype Group = Group(sig: Signature, instances: seq<int>, ninstances: int)

  function TotalInstances(groups: seq<Group>): int {
    if groups == [] then 0 else TotalInstances(groups[..|groups| - 1]) + groups[|groups| - 1].ninstances
  }

  // The tree holds exactly the groups, by position.
  ghost predicate Indexed(tree: Tree<Signature, nat>, groups: seq<Group>) {
    Indexes(Cmp, tree, SignaturesOf(groups))
  }

  function SignaturesOf(groups: seq<Group>): seq<Signature> {
    seq(|groups|, i requires 0 <= i < |groups| => groups[i].sig)
  }

  ghost predicate Distinct(groups: seq<Group>) {
    forall i, j | 0 <= i < j < |groups| :: groups[i].sig != groups[j].sig
  }

  // A group holds exactly the filed addresses that have its signature.
  ghost predicate Complete(classify: Classification, g: Group, log: seq<int>) {
    && g.instances == InstanceList(WithSignature(classify, log, g.sig))
    && g.instances != []
    && g.ninstances == |g.instances|
  }

  ghost predicate HasGroup(groups: seq<Group>, sig: Signature) {
    exists i :: 0 <= i < |groups| && groups[i].sig == sig
  }

  // The groups hold exactly the filed addresses, by signature.
  ghost predicate Partition(classify: Classification, groups: seq<Group>, log: seq<int>) {
    && Distinct(groups)
    && (forall i | 0 <= i < |groups| :: Complete(classify, groups[i], log))
    && (forall sig :: WithSignature(classify, log, sig) != [] ==> HasGroup(groups, sig))
  }

  lemma WithSignatureSnoc(classify: Classification, log: seq<int>, a: int, sig: Signature)
    ensures WithSignature(classify, log + [a], sig) ==
              if classify(a) == Some(sig) then WithSignature(classify, log, sig) + [a]
              else WithSignature(classify, log, sig)
  {
    assert (log + [a])[..|log|] == log;
  }

  lemma InstanceListSnoc(addrs: seq<int>, addr: int)
    requires addrs != []
    ensures InstanceList(addrs + [addr]) == [InstanceList(addrs)[0], addr] + InstanceList(addrs)[1..]
  {
    assert (addrs + [addr])[..|addrs|] == addrs;
  }

  // A group of its own for the first address with a signature.
  lemma PartitionNew(classify: Classification, groups: seq<Group>, log: seq<int>, addr: int, sig: Signature)
    requires Partition(classify, groups, log) && !HasGroup(groups, sig) && classify(addr) == Some(sig)
    ensures Partition(classify, groups + [Group(sig, [addr], 1)], log + [addr])
  {
    var groups' := groups + [Group(sig, [addr], 1)];
    GroupsStayComplete(classify, groups, log, addr, sig);
    FirstInstance(classify, log, addr, sig);
    assert groups'[|groups|].sig == sig;
    CoverageGrows(classify, groups, groups', log, addr);
  }

  lemma GroupsStayComplete(classify: Classification, groups: seq<Group>, log: seq<int>, addr: int, sig: Signature)
    requires !HasGroup(groups, sig) && classify(addr) == Some(sig)
    requires forall i | 0 <= i < |groups| :: Complete(classify, groups[i], log)
    ensures forall i | 0 <= i < |groups| :: Complete(classify, groups[i], log + [addr])
  {
    forall i | 0 <= i < |groups| ensures Complete(classify, groups[i], log + [addr]) {
      assert groups[i].sig != sig;
      OtherGroupStays(classify, groups[i], log, addr);
    }
  }

  lemma FirstInstance(classify: Classification, log: seq<int>, addr: int, sig: Signature)
    requires WithSignature(classify, log, sig) == [] && classify(addr) == Some(sig)
    ensures Complete(classify, Group(sig, [addr], 1), log + [addr])
  {
    WithSignatureSnoc(classify, log, addr, sig);
  }

  lemma CoverageGrows(classify: Classification, groups: seq<Group>, groups': seq<Group>, log: seq<int>, addr: int)
    requires forall sig :: WithSignature(classify, log, sig) != [] ==> HasGroup(groups, sig)
    requires |groups| <= |groups'| && forall i | 0 <= i < |groups| :: groups[i].sig == groups'[i].sig
    requires classify(addr).Some? && HasGroup(groups', classify(addr).value)
    ensures forall sig :: WithSignature(classify, log + [addr], sig) != [] ==> HasGroup(groups', sig)
  {
    forall sig | WithSignature(classify, log + [addr], sig) != [] ensures HasGroup(groups', sig) {
      WithSignatureSnoc(classify, log, addr, sig);
      if classify(addr) != Some(sig) {
        var i :| 0 <= i < |groups| && groups[i].sig == sig;
        assert groups'[i].sig == groups[i].sig;
      }
    }
  }

  // One more instance in the group of its signature.
  function Joined(g: Group, addr: int): Group
    requires g.instances != []
  {
    g.(instances := [g.instances[0], addr] + g.instances[1..], ninstances := g.ninstances + 1)
  }

  lemma OtherGroupStays(classify: Classification, g: Group, log: seq<int>, addr: int)
    requires Complete(classify, g, log) && classify(addr) != Some(g.sig)
    ensures Complete(classify, g, log + [addr])
  {
    WithSignatureSnoc(classify, log, addr, g.sig);
  }

  lemma JoinedIsComplete(classify: Classification, g: Group, log: seq<int>, addr: int)
    requires Complete(classify, g, log) && classify(addr) == Some(g.sig)
    ensures Complete(classify, Joined(g, addr), log + [addr])
  {
    WithSignatureSnoc(classify, log, addr, g.sig);
    InstanceListSnoc(WithSignature(classify, log, g.sig), addr);
  }

  lemma PartitionJoin(classify: Classification, groups: seq<Group>, log: seq<int>, i: nat, addr: int)
    requires Partition(classify, groups, log) && i < |groups| && classify(addr) == Some(groups[i].sig)
    ensures Partition(classify, groups[i := Joined(groups[i], addr)], log + [addr])
  {
    var groups', log' := groups[i := Joined(groups[i], addr)], log + [addr];
    forall j | 0 <= j < |groups'| ensures Complete(classify, groups'[j], log') {
      assert Complete(classify, groups[j], log);
      if j == i {
        JoinedIsComplete(classify, groups[i], log, addr);
      } else {
        assert groups[if j < i then j else i].sig != groups[if j < i then i else j].sig;
        OtherGroupStays(classify, groups[j], log, addr);
      }
    }
    assert groups'[i].sig == groups[i].sig;
    CoverageGrows(classify, groups, groups', log, addr);
  }

  // Looking a signature up finds its group, if there is one.
  lemma FindGroup(tree: Tree<Signature, nat>, groups: seq<Group>, sig: Signature)
    requires Indexed(tree, groups)
    ensures Find(Cmp, tree, sig).None? <==> !HasGroup(groups, sig)
    ensures Find(Cmp, tree, sig).Some? ==>
              Find(Cmp, tree, sig).value < |groups| && groups[Find(Cmp, tree, sig).value].sig == sig
  {
    CmpIsTotalOrder();
    IndexFinds(Cmp, tree, SignaturesOf(groups), sig);
    assert forall k: nat | k < |groups| :: SignaturesOf(groups)[k] == groups[k].sig;
  }

  lemma IndexNew(tree: Tree<Signature, nat>, groups: seq<Group>, g: Group)
    requires Indexed(tree, groups) && Find(Cmp, tree, g.sig).None?
    ensures Indexed(Add(Cmp, tree, g.sig, |groups|), groups + [g])
  {
    CmpIsTotalOrder();
    IndexNewBy(Cmp, tree, groups, g);
  }

  lemma IndexNewBy(cmp: (Signature, Signature) -> int, tree: Tree<Signature, nat>, groups: seq<Group>, g: Group)
    requires TotalOrder(cmp) && Indexes(cmp, tree, SignaturesOf(groups)) && Find(cmp, tree, g.sig).None?
    ensures Indexes(cmp, Add(cmp, tree, g.sig, |groups|), SignaturesOf(groups + [g]))
  {
    IndexAdd(cmp, tree, SignaturesOf(groups), g.sig);
    assert SignaturesOf(groups + [g]) == SignaturesOf(groups) + [g.sig];
  }

  lemma IndexUpdate(tree: Tree<Signature, nat>, groups: seq<Group>, i: nat, g: Group)
    requires Indexed(tree, groups) && i < |groups| && g.sig == groups[i].sig
    ensures Indexed(tree, groups[i := g])
  {
    assert SignaturesOf(groups[i := g]) == SignaturesOf(groups);
  }

  // The instance counts add up: every filed address is counted in exactly one group.
  lemma {:induction false} CountsAddUp(classify: Classification, groups: seq<Group>, log: seq<int>)
    requires Distinct(groups)
    requires forall i | 0 <= i < |groups| ::
               groups[i].ninstances == |WithSignature(classify, log, groups[i].sig)|
    requires forall a | a in log :: classify(a).Some? && HasGroup(groups, classify(a).value)
    ensures TotalInstances(groups) == |log|
    decreases |log|
  {
    if log == [] {
      NoInstances(groups);
    } else {
      var n := |log| - 1;
      var last := log[n];
      assert last in log;
      assert classify(last).Some?;
      assert log == log[..n] + [log[n]];
      var i: nat :| i < |groups| && groups[i].sig == classify(log[n]).value;
      var fewer := groups[i := groups[i].(ninstances := groups[i].ninstances - 1)];
      forall j | 0 <= j < |groups|
        ensures fewer[j].sig == groups[j].sig
        ensures fewer[j].ninstances == |WithSignature(classify, log[..n], groups[j].sig)|
      {
        WithSignatureSnoc(classify, log[..n], log[n], groups[j].sig);
        assert j != i ==> groups[if j < i then j else i].sig != groups[if j < i then i else j].sig;
      }
      forall a | a in log[..n] ensures HasGroup(fewer, classify(a).value) {
        var j :| 0 <= j < |groups| && groups[j].sig == classify(a).value;
        assert fewer[j].sig == groups[j].sig;
      }
      CountsAddUp(classify, fewer, log[..n]);
      TotalAfterUpdate(groups, i, fewer[i]);
    }
  }

  lemma {:induction false} NoInstances(groups: seq<Group>)
    requires forall i | 0 <= i < |groups| :: groups[i].ninstances == 0
    ensures TotalInstances(groups) == 0
  {
    if groups != [] {
      NoInstances(groups[..|groups| - 1]);
    }
  }

  lemma {:induction false} TotalAfterUpdate(groups: seq<Group>, i: nat, g: Group)
    requires i < |groups|
    ensures TotalInstances(groups[i := g]) == TotalInstances(groups) - groups[i].ninstances + g.ninstances
  {
    var n := |groups| - 1;
    if i < n {
      TotalAfterUpdate(groups[..n], i, g);
      assert groups[i := g][..n] == groups[..n][i := g];
    } else {
      assert groups[i := g][..n] == groups[..n];
    }
  }

  class FindJsObjects {
    const heap: Heap
    var tree: Tree<Signature, nat>      // fjs_tree; its values are positions in `groups`
    var groups: seq<Group>              // the list fjs_objects before it is sorted, in reverse
    var jsobjs: nat                     // fjs_stats
    var objects: nat
    var garbage: nat
    var arrays: nat
    var uniques: nat
    ghost const classify: Classification
    ghost var log: seq<int>             // the addresses that have been filed

    ghost predicate Filed()
      reads this
    {
      Indexed(tree, groups) && Partition(classify, groups, log) && uniques == |groups|
    }

    ghost predicate Valid()
      reads this
    {
      && Filed() && Agrees(classify, heap)
      && objects + arrays == |log| && arrays == Arrays(heap, log) && garbage == Garbage(heap, log)
    }

    constructor (heap: Heap)
      ensures Valid() && log == [] && this.heap == heap && classify == Classifier(heap)
    {
      this.heap, classify := heap, Classifier(heap);
      tree, groups, log := Empty, [], [];
      jsobjs, objects, garbage, arrays, uniques := 0, 0, 0, 0, 0;
    }

    // The last part of findjsobjects_range(): file an object under its signature.
    method File(addr: int, sig: Signature)
      requires Filed() && classify(addr) == Some(sig)
      modifies this`tree, this`groups, this`uniques, this`log
      ensures Filed() && log == old(log) + [addr]
    {
      FindGroup(tree, groups, sig);
      match Find(Cmp, tree, sig)
      case None => NewGroup(addr, sig);
      case Some(i) => JoinGroup(i, addr);
    }

    method NewGroup(addr: int, sig: Signature)
      requires Filed() && classify(addr) == Some(sig)
      requires Find(Cmp, tree, sig).None? && !HasGroup(groups, sig)
      modifies this`tree, this`groups, this`uniques, this`log
      ensures Filed() && log == old(log) + [addr]
    {
      IndexNew(tree, groups, Group(sig, [addr], 1));
      PartitionNew(classify, groups, log, addr, sig);
      tree := Add(Cmp, tree, sig, |groups|);
      groups := groups + [Group(sig, [addr], 1)];
      uniques := uniques + 1;
      log := log + [addr];
    }

    method JoinGroup(i: nat, addr: int)
      requires Filed() && i < |groups| && classify(addr) == Some(groups[i].sig)
      modifies this`groups, this`log
      ensures Filed() && log == old(log) + [addr]
    {
      PartitionJoin(classify, groups, log, i, addr);
      var obj := groups[i];
      IndexUpdate(tree, groups, i, Joined(obj, addr));
      obj := obj.(instances := [obj.instances[0], addr] + obj.instances[1..]);
      obj := obj.(ninstances := obj.ninstances + 1);
      groups := groups[i := obj];
      log := log + [addr];
    }

    // Collect an object's properties, one callback at a time.
    static method Build(calls: seq<PropCall>) returns (obj: Building)
      ensures obj == Building(Descs(calls), |calls|, OnlyPlaceholder(calls))
    {
      obj := Building([], 0, false);
      for n := 0 to |calls|
        invariant obj == Building(Descs(calls[..n]), n, OnlyPlaceholder(calls[..n]))
      {
        obj := obj.Add(calls[n]);
        assert Descs(calls[..n + 1]) == Descs(calls[..n]) + [DescOf(calls[n])];
      }
      assert calls[..|calls|] == calls;
    }

    // The first part of findjsobjects_range() for one address: is this an object to be filed?
    method Inspect(addr: int) returns (sig: Option<Signature>)
      modifies this`jsobjs, this`objects, this`garbage, this`arrays
      ensures sig == Classify(heap, addr)
      ensures objects + arrays == old(objects + arrays) + if sig.Some? then 1 else 0
      ensures var k, t := heap.core.k, heap.core.ReadTypeByte(addr);
              jsobjs == old(jsobjs) +
                if IsHeapObject(addr) && t.Some? && t.value != k.typeJSFunction
                   && t.value in {k.typeJSObject, k.typeJSArray, k.typeJSTypedArray} then 1 else 0
      ensures arrays == old(arrays) + if sig.Some? && IsArray(heap, addr) then 1 else 0
      ensures garbage == old(garbage) + if sig.Some? && IsGarbage(heap, addr) then 1 else 0
    {
      var k := heap.core.k;
      if IsSmi(addr) || !IsHeapObject(addr) {
        return None;
      }
      var t := heap.core.ReadTypeByte(addr);
      if t.None? {
        return None;
      }
      var type_ := t.value;
      if type_ == k.typeJSFunction {
        return None;
      }
      if type_ != k.typeJSObject && type_ != k.typeJSArray && type_ != k.typeJSTypedArray {
        return None;
      }
      jsobjs := jsobjs + 1;
      if type_ == k.typeJSObject || type_ == k.typeJSTypedArray {
        var seen := heap.inspect(addr);
        var obj := Build(seen.calls);
        if !seen.ok {
          return None;
        }
        if seen.garbage {
          garbage := garbage + 1;
          obj := obj.(malformed := true);
        }
        objects := objects + 1;
        return Some(Signature(obj.malformed, obj.props, obj.nprops, heap.constructorName(addr)));
      } else {
        var n := ArrayLength(heap.core, addr);
        if n.None? {
          return None;
        }
        arrays := arrays + 1;
        return Some(Signature(false, [], n.value, "Array"));
      }
    }

    // findjsobjects_range()
    method Range(base: int, size: nat)
      requires Valid()
      modifies this
      ensures Valid()
      ensures log == ScanLog(heap.core, classify, old(log), base, size)
    {
      if !heap.core.Readable(base, size) {
        return;
      }
      var addr := base;
      while addr < base + size
        invariant base <= addr <= base + size
        invariant Valid()
        invariant log == Logged(classify, old(log), base, addr)
      {
        ScanAddress(addr);
        addr := addr + 1;
      }
    }

    // The scan of all the mappings.
    method Run(ranges: seq<(int, nat)>)
      requires Valid()
      modifies this
      ensures Valid()
      ensures log == ScanAllLog(heap.core, classify, old(log), ranges)
    {
      for n := 0 to |ranges|
        invariant Valid()
        invariant log == ScanAllLog(heap.core, classify, old(log), ranges[..n])
      {
        Range(ranges[n].0, ranges[n].1);
        assert ranges[..n + 1][..n] == ranges[..n];
      }
      assert ranges[..|ranges|] == ranges;
    }

    // One turn of the loop in findjsobjects_range().
    method ScanAddress(addr: int)
      requires Valid()
      modifies this
      ensures Valid()
      ensures log == if classify(addr).Some? then old(log) + [addr] else old(log)
    {
      var sig := Inspect(addr);
      if sig.Some? {
        CountsSnoc(heap, log, addr);
        File(addr, sig.value);
      }
    }
  }

  lemma {:induction false} WithSignatureIsExact(classify: Classification, log: seq<int>, sig: Signature)
    ensures forall a :: a in WithSignature(classify, log, sig) <==> a in log && classify(a) == Some(sig)
    ensures forall a :: multiset(WithSignature(classify, log, sig))[a] ==
                          if classify(a) == Some(sig) then multiset(log)[a] else 0
  {
    if log != [] {
      var n := |log| - 1;
      assert log == log[..n] + [log[n]];
      WithSignatureIsExact(classify, log[..n], sig);
    }
  }

  lemma {:induction false} InstanceListIsPermutation(addrs: seq<int>)
    ensures multiset(InstanceList(addrs)) == multiset(addrs)
  {
    if |addrs| > 1 {
      var n := |addrs| - 1;
      InstanceListIsPermutation(addrs[..n]);
      var rest := InstanceList(addrs[..n]);
      assert addrs == addrs[..n] + [addrs[n]];
      assert rest == [rest[0]] + rest[1..];
    }
  }

  lemma GroupIsExact(classify: Classification, g: Group, log: seq<int>, a: int)
    requires Complete(classify, g, log)
    ensures multiset(g.instances)[a] == if classify(a) == Some(g.sig) then multiset(log)[a] else 0
    ensures a in g.instances ==> classify(a) == Some(g.sig)
  {
    WithSignatureIsExact(classify, log, g.sig);
    InstanceListIsPermutation(WithSignature(classify, log, g.sig));
  }

  // Every filed address is in a group, and only in one: two addresses share a group if and only
  // if they have the same signature.
  lemma GroupsShareSignatures(classify: Classification, groups: seq<Group>, log: seq<int>, i: nat, j: nat,
                              a: int, b: int)
    requires Partition(classify, groups, log) && i < |groups| && j < |groups|
    requires a in groups[i].instances && b in groups[j].instances
    ensures i == j <==> classify(a) == classify(b)
    ensures i == j <==> Cmp(groups[i].sig, groups[j].sig) == 0
  {
    GroupIsExact(classify, groups[i], log, a);
    GroupIsExact(classify, groups[j], log, b);
    CmpSign(groups[i].sig, groups[j].sig);
    assert i != j ==> groups[if i < j then i else j].sig != groups[if i < j then j else i].sig;
  }

  lemma HasItsGroup(classify: Classification, groups: seq<Group>, log: seq<int>, a: int)
    requires Partition(classify, groups, log) && a in log && classify(a).Some?
    ensures IsHeld(groups, a)
  {
    WithSignatureIsExact(classify, log, classify(a).value);
    var i :| 0 <= i < |groups| && groups[i].sig == classify(a).value;
    InstanceListIsPermutation(WithSignature(classify, log, groups[i].sig));
    assert a in multiset(groups[i].instances);
  }

  ghost predicate IsHeld(groups: seq<Group>, a: int) {
    exists i :: 0 <= i < |groups| && a in groups[i].instances
  }

  // Instances share a group exactly when they have the same signature.
  ghost predicate SplitBySignature(classify: Classification, groups: seq<Group>) {
    forall i, j, a, b | 0 <= i < |groups| && 0 <= j < |groups|
                      && a in groups[i].instances && b in groups[j].instances ::
      i == j <==> classify(a) == classify(b)
  }

  // The groups hold exactly the filed addresses.
  lemma LogIsHeld(classify: Classification, groups: seq<Group>, log: seq<int>)
    requires Partition(classify, groups, log) && forall a | a in log :: classify(a).Some?
    ensures forall a :: IsHeld(groups, a) <==> a in log
  {
    forall a ensures IsHeld(groups, a) <==> a in log {
      if a in log {
        HasItsGroup(classify, groups, log, a);
      }
      if i :| 0 <= i < |groups| && a in groups[i].instances {
        GroupIsExact(classify, groups[i], log, a);
      }
    }
  }

  lemma InstancesAreSplit(classify: Classification, groups: seq<Group>, log: seq<int>)
    requires Partition(classify, groups, log)
    ensures SplitBySignature(classify, groups)
  {
    forall i, j, a, b | 0 <= i < |groups| && 0 <= j < |groups| && a in groups[i].instances && b in groups[j].instances
      ensures i == j <==> classify(a) == classify(b)
    {
      GroupsShareSignatures(classify, groups, log, i, j, a, b);
    }
  }

  lemma InstancesAreCounted(classify: Classification, groups: seq<Group>, log: seq<int>)
    requires Partition(classify, groups, log) && forall a | a in log :: classify(a).Some?
    ensures TotalInstances(groups) == |log|
  {
    forall a | a in log ensures HasGroup(groups, classify(a).value) {
      WithSignatureIsExact(classify, log, classify(a).value);
    }
    CountsAddUp(classify, groups, log);
  }

  // The groups hold exactly the acceptable addresses of the readable ranges, and two of them share
  // a group exactly when their signatures are equal.
  ghost predicate GroupsAreRight(core: Core, classify: Classification, groups: seq<Group>, ranges: seq<(int, nat)>) {
    && (forall a :: IsHeld(groups, a) <==>
          classify(a).Some? && exists r :: r in ranges && core.Readable(r.0, r.1) && r.0 <= a < r.0 + r.1)
    && SplitBySignature(classify, groups)
    && forall i | 0 <= i < |groups| :: groups[i].ninstances == |groups[i].instances| > 0
  }

  lemma ScanIsGroupedRight(core: Core, classify: Classification, groups: seq<Group>, ranges: seq<(int, nat)>)
    requires Partition(classify, groups, ScanAllLog(core, classify, [], ranges))
    ensures GroupsAreRight(core, classify, groups, ranges)
    ensures TotalInstances(groups) == |ScanAllLog(core, classify, [], ranges)|
  {
    var log := ScanAllLog(core, classify, [], ranges);
    ScanIsExact(core, classify, ranges);
    LogIsHeld(classify, groups, log);
    InstancesAreSplit(classify, groups, log);
    InstancesAreCounted(classify, groups, log);
    assert forall i | 0 <= i < |groups| :: Complete(classify, groups[i], log);
  }

  // A whole scan: afterwards the groups are right, and so are all the counters.
  method FindAll(heap: Heap, ranges: seq<(int, nat)>) returns (js: FindJsObjects)
    ensures fresh(js) && js.Valid() && js.heap == heap && js.classify == Classifier(heap)
    ensures js.log == ScanAllLog(heap.core, js.classify, [], ranges)
    ensures GroupsAreRight(heap.core, js.classify, js.groups, ranges)
    ensures js.uniques == |js.groups| && TotalInstances(js.groups) == js.objects + js.arrays
    ensures var log := ScanAllLog(heap.core, js.classify, [], ranges);
            js.arrays == |Places(ArrayTest(heap), log)| && js.garbage == |Places(GarbageTest(heap), log)|
  {
    js := new FindJsObjects(heap);
    js.Run(ranges);
    ScanIsGroupedRight(heap.core, js.classify, js.groups, ranges);
    FilingsAreCounted(heap, js.log);
  }
}
